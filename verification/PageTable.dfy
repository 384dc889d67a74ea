/** Translation tables: three levels, 39-bit virtual addresses, 4 KiB pages.  Addresses are page
    numbers within the half of the address space that a table serves, so a virtual page number
    has 27 bits: 9 for each level. */
module PageTable {

  /** A 64-bit descriptor: the frame number in bits 47..12 and the set of other bits that are
      set.  Or-ing attribute bits in is a union. */
  datatype Word = Word(frame: nat, flags: set<nat>)

  const EMPTY := Word(0, {})

  const VALID: nat := 0

  const TABLE_BIT: nat := 1

  const PAGES := 0x8000000

  /** Pages below one entry of the top level. */
  const GIGA := 0x40000

  /** Frames that fit into 48 address bits. */
  const FRAMES := 0x1000000000

  type Memory = map<nat, seq<Word>>

  /** What the table walk of the architecture (VMSAv8-64, section D8.3 of Arm ARM DDI 0487)
      yields for a page. */
  datatype Look = Fault | Mapped(frame: nat, attr: set<nat>, block: bool)

  predicate IsTable(w: Word) {
    VALID in w.flags && TABLE_BIT in w.flags
  }

  predicate IsBlock(w: Word) {
    VALID in w.flags && TABLE_BIT !in w.flags
  }

  function Entry(m: Memory, f: nat, i: nat): (w: Word) {
    if f in m && i < |m[f]| then m[f][i] else EMPTY
  }

  function I(x: nat): (i: nat) { x / GIGA }

  function J(x: nat): (j: nat) ensures j < 512 { x / 512 % 512 }

  function K(x: nat): (k: nat) ensures k < 512 { x % 512 }

  function Attr(flags: set<nat>): (a: set<nat>) {
    flags - {VALID, TABLE_BIT}
  }

  /** The level 2 descriptor that the walk for page x reaches; EMPTY if it faults before. */
  function Level2(m: Memory, root: nat, x: nat): (w: Word) {
    var e1 := Entry(m, root, I(x));
    if IsTable(e1) then Entry(m, e1.frame, J(x)) else EMPTY
  }

  function Walk(m: Memory, root: nat, x: nat): (l: Look) {
    var e1 := Entry(m, root, I(x));
    if IsBlock(e1) then Mapped(e1.frame + x % GIGA, Attr(e1.flags), true) else
    var e2 := Level2(m, root, x);
    if IsBlock(e2) then Mapped(e2.frame + K(x), Attr(e2.flags), true) else
    if !IsTable(e2) then Fault else
    var e3 := Entry(m, e2.frame, K(x));
    if IsTable(e3) then Mapped(e3.frame, Attr(e3.flags), false) else Fault
  }

  /** Where in the tree a table sits. */
  datatype Place = Top | Second(i: nat) | Third(i: nat, j: nat)

  /** The tables form a tree: every non-empty entry above the last level is a block or points
      to the one table placed below it. */
  ghost predicate Tree(m: Memory, root: nat, at: map<nat, Place>)
  {
    && at.Keys == m.Keys
    && (forall f | f in m :: |m[f]| == 512)
    && root in m && at[root] == Top
    && (forall i | 0 <= i < 512 && m[root][i] != EMPTY :: PointsTo(m, at, m[root][i], Second(i)))
    && (forall f, j | f in m && at[f].Second? && 0 <= j < 512 && m[f][j] != EMPTY ::
          IsBlock(m[f][j]) || PointsTo(m, at, m[f][j], Third(at[f].i, j)))
  }

  ghost predicate PointsTo(m: Memory, at: map<nat, Place>, w: Word, p: Place)
    requires at.Keys == m.Keys
  {
    IsTable(w) && w.frame in m && at[w.frame] == p
  }

  /** Every table of the last level maps a page. */
  ghost predicate Live(m: Memory, root: nat) {
    forall x: nat | x < PAGES && IsTable(Level2(m, root, x)) :: MapsNear(m, root, x)
  }

  ghost predicate MapsNear(m: Memory, root: nat, x: nat) {
    exists y: nat :: y < PAGES && y / 512 == x / 512 && Walk(m, root, y).Mapped?
  }

  function ZeroTable(): (t: seq<Word>)
    ensures |t| == 512 && forall i | 0 <= i < 512 :: t[i] == EMPTY
  {
    seq(512, i => EMPTY)
  }

  function Write(m: Memory, f: nat, i: nat, w: Word): (m': Memory)
    requires f in m && i < |m[f]|
  {
    m[f := m[f][i := w]]
  }

  lemma Decompose(x: nat)
    ensures x == GIGA * I(x) + 512 * J(x) + K(x)
    ensures x / 512 == 512 * I(x) + J(x)
  {
    var y := x / 512;
    assert x / GIGA == y / 512;
  }

  lemma SamePlace(x: nat, y: nat)
    requires I(x) == I(y) && J(x) == J(y)
    ensures x / 512 == y / 512
    ensures K(x) == K(y) ==> x == y
  {
    Decompose(x);
    Decompose(y);
  }

  /** Writing an entry of a last-level table changes the walk of one page. */
  lemma WritePage(m: Memory, root: nat, at: map<nat, Place>, g: nat, x: nat, w: Word)
    requires Tree(m, root, at) && x < PAGES && g in m && at[g] == Third(I(x), J(x))
    requires IsTable(Level2(m, root, x)) && Level2(m, root, x).frame == g
    requires IsTable(w)
    ensures var m' := Write(m, g, K(x), w);
            && Tree(m', root, at)
            && Walk(m', root, x) == Mapped(w.frame, Attr(w.flags), false)
            && (forall y: nat | y < PAGES :: Level2(m', root, y) == Level2(m, root, y))
            && (forall y: nat | y < PAGES && y != x :: Walk(m', root, y) == Walk(m, root, y))
  {
    var m' := Write(m, g, K(x), w);
    assert forall f | f in m && f != g :: m'[f] == m[f];
    assert Tree(m', root, at);
    forall y: nat | y < PAGES ensures Level2(m', root, y) == Level2(m, root, y)
    {
      var e1 := Entry(m, root, I(y));
      assert e1 != EMPTY ==> at[e1.frame] == Second(I(y));
    }
    forall y: nat | y < PAGES && y != x ensures Walk(m', root, y) == Walk(m, root, y) {
      var e1, e2 := Entry(m, root, I(y)), Level2(m, root, y);
      assert e1 != EMPTY ==> at[e1.frame] == Second(I(y));
      if IsTable(e2) && e2.frame == g {
        assert at[e2.frame] == Third(I(y), J(y));
        SamePlace(x, y);
      }
    }
  }

  /** Writing an entry of a level 2 table leaves the walks that do not pass it alone. */
  lemma WriteSecond(m: Memory, root: nat, at: map<nat, Place>, f: nat, x: nat, w: Word)
    requires Tree(m, root, at) && x < PAGES && f in m && at[f] == Second(I(x))
    requires IsTable(Entry(m, root, I(x))) && Entry(m, root, I(x)).frame == f
    requires IsBlock(w) || PointsTo(m, at, w, Third(I(x), J(x)))
    ensures var m' := Write(m, f, J(x), w);
            && Tree(m', root, at)
            && (forall y: nat | y < PAGES && y / 512 == x / 512 :: Level2(m', root, y) == w)
            && (forall y: nat | y < PAGES && y / 512 != x / 512 :: Level2(m', root, y) == Level2(m, root, y))
            && (forall y: nat | y < PAGES && y / 512 != x / 512 :: Walk(m', root, y) == Walk(m, root, y))
  {
    var m' := Write(m, f, J(x), w);
    assert forall g | g in m && g != f :: m'[g] == m[g];
    assert Tree(m', root, at);
    forall y: nat | y < PAGES
      ensures y / 512 == x / 512 ==> Level2(m', root, y) == w
      ensures y / 512 != x / 512 ==> Level2(m', root, y) == Level2(m, root, y)
      ensures y / 512 != x / 512 ==> Walk(m', root, y) == Walk(m, root, y)
    {
      Decompose(x);
      Decompose(y);
      var e1 := Entry(m, root, I(y));
      assert e1 != EMPTY ==> at[e1.frame] == Second(I(y));
      var e2 := Level2(m, root, y);
      assert e1 != EMPTY && e2 != EMPTY ==> IsBlock(e2) || at[e2.frame] == Third(I(y), J(y));
    }
  }

  /** A new zeroed table that nothing points to yet changes no walk. */
  lemma AddTable(m: Memory, root: nat, at: map<nat, Place>, g: nat, p: Place)
    requires Tree(m, root, at) && g !in m && !p.Top?
    ensures var m' := m[g := ZeroTable()];
            && Tree(m', root, at[g := p])
            && forall y: nat | y < PAGES ::
                 Level2(m', root, y) == Level2(m, root, y) && Walk(m', root, y) == Walk(m, root, y)
  {
    var m', at' := m[g := ZeroTable()], at[g := p];
    assert forall f | f in m :: m'[f] == m[f] && at'[f] == at[f];
    assert Tree(m', root, at');
    forall y: nat | y < PAGES
      ensures Level2(m', root, y) == Level2(m, root, y) && Walk(m', root, y) == Walk(m, root, y)
    {
      var e1 := Entry(m, root, I(y));
      assert e1 != EMPTY ==> e1.frame in m;
      var e2 := Level2(m, root, y);
      assert e2 != EMPTY ==> IsBlock(e2) || e2.frame in m;
    }
  }

  /** Hanging an empty level 2 table below an empty top entry changes no walk. */
  lemma LinkSecond(m: Memory, root: nat, at: map<nat, Place>, x: nat, w: Word)
    requires Tree(m, root, at) && x < PAGES && PointsTo(m, at, w, Second(I(x)))
    requires m[root][I(x)] == EMPTY && m[w.frame] == ZeroTable()
    ensures var m' := Write(m, root, I(x), w);
            && Tree(m', root, at)
            && forall y: nat | y < PAGES ::
                 Level2(m', root, y) == Level2(m, root, y) && Walk(m', root, y) == Walk(m, root, y)
  {
    var m' := Write(m, root, I(x), w);
    assert forall f | f in m && f != root :: m'[f] == m[f];
    assert Tree(m', root, at);
    forall y: nat | y < PAGES
      ensures Level2(m', root, y) == Level2(m, root, y) && Walk(m', root, y) == Walk(m, root, y)
    {
      var e1 := Entry(m, root, I(y));
      assert e1 != EMPTY ==> at[e1.frame] == Second(I(y));
      var e2 := Level2(m, root, y);
      assert e2 != EMPTY ==> IsBlock(e2) || at[e2.frame] == Third(I(y), J(y));
    }
  }

  /** The top table is as before. */
  ghost predicate TopKept(m: Memory, m': Memory, root: nat) {
    root in m && root in m' && m'[root] == m[root]
  }

  /** How a mapping call ends.  OutOfMemory: a table could not be allocated and the source
      stops at its assertion.  StrayWrite: a page descriptor is about to be written into the
      memory that an existing block maps, because that block is taken for a table. */
  datatype Outcome = Done | OutOfMemory | StrayWrite

  /** A range of pages mapped to the pages that lie d further on. */
  datatype Region = Region(first: nat, end: nat, d: int, flags: set<nat>) {
    predicate Holds(x: nat) {
      first <= x < end
    }

    /** Is the 2 MiB around x mapped by one block? */
    predicate ByBlock(x: nat) {
      first <= x / 512 * 512 && x / 512 * 512 + 512 <= end && d % 512 == 0
    }
  }

  /** The plain map update that mapping r stands for. */
  function Update(r: Region, before: Look, x: nat): (l: Look) {
    if r.Holds(x) && x + r.d >= 0 then Mapped(x + r.d, Attr(r.flags), r.ByBlock(x)) else before
  }

  ghost predicate Updated(m: Memory, m': Memory, root: nat, r: Region) {
    forall x: nat | x < PAGES :: Walk(m', root, x) == Update(r, Walk(m, root, x), x)
  }

  /** Page x of r is mapped by a page descriptor although a block maps it already. */
  ghost predicate Conflict(m: Memory, root: nat, r: Region, x: nat) {
    x < PAGES && r.Holds(x) && !r.ByBlock(x) && IsBlock(Level2(m, root, x))
  }

  lemma LiveAfter(m: Memory, m': Memory, root: nat, x: nat)
    requires Live(m, root) && x < PAGES
    requires Walk(m', root, x).Mapped? || !IsTable(Level2(m', root, x))
    requires forall y: nat | y < PAGES && y / 512 == x / 512 :: Level2(m', root, y) == Level2(m', root, x)
    requires forall y: nat | y < PAGES && y / 512 != x / 512 ::
               Level2(m', root, y) == Level2(m, root, y) && Walk(m', root, y) == Walk(m, root, y)
    ensures Live(m', root)
  {
    forall y: nat | y < PAGES && IsTable(Level2(m', root, y)) ensures MapsNear(m', root, y) {
      if y / 512 == x / 512 {
        assert Walk(m', root, x).Mapped?;
      } else {
        assert MapsNear(m, root, y);
        var z: nat :| z < PAGES && z / 512 == y / 512 && Walk(m, root, z).Mapped?;
        assert Walk(m', root, z).Mapped?;
      }
    }
  }

  /** The frames of the first n addresses. */
  ghost function FramesOf(supply: seq<int>, n: nat, offset: int): (s: set<int>)
    requires n <= |supply|
  {
    set i | 0 <= i < n :: supply[i] - offset
  }

  /** The tables are those before and one in each page drawn from the supply so far; pool is the
      rest of the supply. */
  ghost predicate Drawn(before: set<nat>, supply: seq<int>, offset: int, tables: set<nat>, pool: seq<int>) {
    |pool| <= |supply| && var n := |supply| - |pool|;
    pool == supply[n..] && tables == before + FramesOf(supply, n, offset)
  }

  lemma DrawOne(before: set<nat>, supply: seq<int>, offset: int, tables: set<nat>, pool: seq<int>)
    requires Drawn(before, supply, offset, tables, pool) && pool != [] && pool[0] - offset >= 0
    ensures Drawn(before, supply, offset, tables + {pool[0] - offset}, pool[1..])
  {
    var n := |supply| - |pool|;
    assert supply[n] == pool[0];
    assert FramesOf(supply, n + 1, offset) == FramesOf(supply, n, offset) + {pool[0] - offset};
  }

  /** The number of 2 MiB parts that pages [v, e) meet. */
  function Chunks(v: nat, e: nat): (n: nat)
    requires v <= e
  {
    if v == e then 0 else (e - 1) / 512 - v / 512 + 1
  }

  /** The tables that mapping [v, e) can need: one for each 2 MiB and one for each 1 GiB it meets. */
  function TablesFor(v: nat, e: nat): (n: nat)
    requires v <= e
  {
    Chunks(v, e) + Parts(v, e)
  }

  /** The 1 GiB parts that [v, e) meets. */
  function Parts(v: nat, e: nat): (n: nat)
    requires v <= e
  {
    if v == e then 0 else (e - 1) / GIGA - v / GIGA + 1
  }

  /** 1 if mapping r takes a new table below the top entry for page x of it. */
  function SecondsAt(m: Memory, root: nat, r: Region, x: nat): (n: nat) {
    if (x == r.first || x % GIGA == 0) && Entry(m, root, I(x)) == EMPTY then 1 else 0
  }

  /** 1 if it takes a new table below the level 2 entry for page x. */
  function ThirdsAt(m: Memory, root: nat, r: Region, x: nat): (n: nat) {
    if (x == r.first || x % 512 == 0) && !r.ByBlock(x) && Level2(m, root, x) == EMPTY then 1 else 0
  }

  /** The tables that mapping the pages of r below hi takes: one for each empty top entry met, and one for
      each empty level 2 entry met by a part that is no block. */
  function Need(m: Memory, root: nat, r: Region, hi: nat): (n: nat) {
    if hi <= r.first then 0
    else
      Need(m, root, r, hi - 1) + SecondsAt(m, root, r, hi - 1) + ThirdsAt(m, root, r, hi - 1)
  }

  /** With n pages for tables, these run out before a block in the way is met. */
  ghost predicate RunsOut(m: Memory, root: nat, r: Region, n: nat) {
    exists hi: nat :: hi <= r.end && Clear(m, root, r, hi) && n < Need(m, root, r, hi)
  }

  /** How mapping r ends, with n pages for tables. */
  ghost predicate Ends(m: Memory, root: nat, r: Region, n: nat, o: Outcome) {
    match o
    case OutOfMemory => RunsOut(m, root, r, n)
    case StrayWrite => !RunsOut(m, root, r, n) && Conflicts(m, root, r)
    case Done => !RunsOut(m, root, r, n) && !Conflicts(m, root, r)
  }

  class Tables {
    const root: nat

    /** Distance in pages between a page of RAM and the address the kernel sees it at.
        With 0 the methods below are the idmap_ twins. */
    const offset: int

    /** The frames of all tables. */
    var mem: Memory

    /** The addresses that pt_alloc will hand out. */
    var pool: seq<int>

    ghost var at: map<nat, Place>

    /** The frames of the tables at the start, and all addresses pt_alloc hands out from then on. */
    ghost var before: set<nat>
    ghost var supply: seq<int>

    ghost predicate Sound()
      reads this
    {
      && Tree(mem, root, at)
      && Drawn(before, supply, offset, at.Keys, pool)
      && (forall i | 0 <= i < |pool| :: pool[i] > 0 && pool[i] - offset >= 0 && pool[i] - offset !in mem)
      && (forall i, j | 0 <= i < j < |pool| :: pool[i] != pool[j])
    }

    ghost predicate Valid()
      reads this
    {
      Sound() && Live(mem, root)
    }

    /** An empty top table, and the pages that pt_alloc will hand out. */
    constructor (root: nat, offset: int, pool: seq<int>)
      requires forall i | 0 <= i < |pool| :: pool[i] > 0 && pool[i] - offset >= 0 && pool[i] - offset != root
      requires forall i, j | 0 <= i < j < |pool| :: pool[i] != pool[j]
      ensures Valid() && this.root == root && this.offset == offset && this.pool == pool && supply == pool
      ensures before == {root} && forall x: nat | x < PAGES :: Walk(mem, root, x) == Fault
    {
      this.root, this.offset, this.pool := root, offset, pool;
      mem, at, before, supply := map[root := ZeroTable()], map[root := Top], {root}, pool;
    }

    /** The pages that pt_alloc will hand out from now on. */
    method Supply(pages: seq<int>)
      requires Valid()
      requires forall i | 0 <= i < |pages| :: pages[i] > 0 && pages[i] - offset >= 0 && pages[i] - offset !in mem
      requires forall i, j | 0 <= i < j < |pages| :: pages[i] != pages[j]
      modifies this`pool, this`before, this`supply
      ensures Valid() && pool == pages
    {
      pool, before, supply := pages, at.Keys, pages;
      assert FramesOf(supply, 0, offset) == {};
    }

    /** pt_alloc: a zeroed page, or 0. */
    method PtAlloc(ghost p: Place) returns (a: int)
      requires Sound() && !p.Top?
      modifies this`mem, this`pool, this`at
      ensures (a == 0 <==> old(pool) == []) && |old(pool)| == |pool| + if a == 0 then 0 else 1
      ensures Sound()
      ensures a == 0 ==> mem == old(mem) && at == old(at)
      ensures a != 0 ==> a - offset >= 0 && a - offset !in old(mem)
      ensures a != 0 ==> mem == old(mem)[a - offset := ZeroTable()] && at == old(at)[a - offset := p]
    {
      hide Drawn;
      if pool == [] {
        return 0;
      }
      a := pool[0];
      AddTable(mem, root, at, a - offset, p);
      DrawOne(before, supply, offset, at.Keys, pool);
      assert at[a - offset := p].Keys == at.Keys + {a - offset};
      mem, pool, at := mem[a - offset := ZeroTable()], pool[1..], at[a - offset := p];
    }

    /** The head of pte_map: the last-level table below the level 2 entry for page v, in frame f. */
    method ThirdTable(f: nat, v: nat) returns (o: Outcome, pte: int)
      requires Sound() && v < PAGES
      requires IsTable(Entry(mem, root, I(v))) && Entry(mem, root, I(v)).frame == f
      modifies this`mem, this`pool, this`at
      ensures o.OutOfMemory? <==> old(pool) == [] && old(Level2(mem, root, v)) == EMPTY
      ensures o.Done? ==> |old(pool)| == |pool| + if old(Level2(mem, root, v)) == EMPTY then 1 else 0
      ensures !o.Done? ==> |old(pool)| == |pool|
      ensures o.StrayWrite? <==> IsBlock(old(Level2(mem, root, v)))
      ensures o.Done? ==>
                && Sound()
                && TopKept(old(mem), mem, root)
                && IsTable(Level2(mem, root, v)) && Level2(mem, root, v).frame == pte - offset
                && pte - offset in mem && at[pte - offset] == Third(I(v), J(v))
                && (forall y: nat | y < PAGES :: Walk(mem, root, y) == old(Walk(mem, root, y)))
                && (forall y: nat | y < PAGES && y / 512 != v / 512 ::
                      Level2(mem, root, y) == old(Level2(mem, root, y)))
                && (forall y: nat | y < PAGES && y / 512 == v / 512 ::
                      Level2(mem, root, y) == Level2(mem, root, v))
    {
      hide Drawn;
      assert at[f] == Second(I(v));
      ghost var m0 := mem;
      var idx := v / 512 % 512;
      if mem[f][idx] == EMPTY {
        pte := PtAlloc(Third(I(v), J(v)));
        if pte == 0 {
          return OutOfMemory, 0;
        }
        ghost var m1 := mem;
        AddTable(m0, root, old(at), pte - offset, Third(I(v), J(v)));
        var w := Word(pte - offset, {VALID, TABLE_BIT});
        WriteSecond(m1, root, at, f, v, w);
        mem := mem[f := mem[f][idx := w]];
        NewThirdFaults(m1, mem, root, v, pte - offset);
        o := Done;
      } else if IsBlock(mem[f][idx]) {
        return StrayWrite, 0;
      } else {
        pte := mem[f][idx].frame + offset;
        SameSecond(mem, root, v);
        o := Done;
      }
    }

    /** pte_map: pages [v, e), all below one level 2 entry of the table in frame f. */
    method PteMap(f: nat, v: nat, e: nat, p: nat, flags: set<nat>) returns (o: Outcome)
      requires Valid() && v < e <= v / 512 * 512 + 512 && e <= PAGES
      requires IsTable(Entry(mem, root, I(v))) && Entry(mem, root, I(v)).frame == f
      modifies this`mem, this`pool, this`at
      ensures o.OutOfMemory? <==> old(pool) == [] && old(Level2(mem, root, v)) == EMPTY
      ensures o.Done? ==> |old(pool)| == |pool| + if old(Level2(mem, root, v)) == EMPTY then 1 else 0
      ensures !o.Done? ==> |old(pool)| == |pool|
      ensures o.StrayWrite? <==> IsBlock(old(Level2(mem, root, v)))
      ensures o.Done? ==> Valid() && ChunkSet(old(mem), mem, root, v, e, p, flags, false)
    {
      hide Drawn;
      var pte;
      o, pte := ThirdTable(f, v);
      if !o.Done? {
        return;
      }
      ghost var m1 := mem;
      FillPages(pte, v, e, p, flags);
      PteMapKeepsLive(old(mem), m1, mem, root, v, e, p, flags);
    }

    /** The loop of pte_map: descriptors for [v, e) in the last-level table at pte. */
    method FillPages(pte: int, v: nat, e: nat, p: nat, flags: set<nat>)
      requires Sound() && v < e <= v / 512 * 512 + 512 && e <= PAGES
      requires pte - offset >= 0 && pte - offset in mem && at[pte - offset] == Third(I(v), J(v))
      requires IsTable(Level2(mem, root, v)) && Level2(mem, root, v).frame == pte - offset
      modifies this`mem
      ensures Sound() && PagesSet(old(mem), mem, root, v, e, p, flags)
    {
      hide Drawn;
      ghost var m1 := mem;
      var table: nat := pte - offset;
      var idx := v % 512;
      var next, vaddr, paddr := v, v, p;
      while next != e
        invariant v <= next <= e && vaddr == next && paddr == p + (next - v) && idx == v % 512 + (next - v)
        invariant Sound() && table in mem
        invariant PagesSet(m1, mem, root, v, next, p, flags)
        decreases e - next
      {
        next := next + 1;
        next := if next < e then next else e;
        InChunk(v, vaddr, m1, root);
        ghost var m2 := mem;
        SetPage(table, idx, vaddr, Word(paddr, {VALID, TABLE_BIT} + flags));
        MorePages(m1, m2, mem, root, v, vaddr, p, flags);
        paddr := paddr + (next - vaddr);
        vaddr := next;
        idx := idx + 1;
      }
    }

    /** *pte = w, for the descriptor that the walk of page x reads. */
    method SetPage(table: nat, idx: nat, ghost x: nat, w: Word)
      requires Sound() && x < PAGES && idx == K(x) && IsTable(w)
      requires table in mem && at[table] == Third(I(x), J(x))
      requires IsTable(Level2(mem, root, x)) && Level2(mem, root, x).frame == table
      modifies this`mem
      ensures Sound() && table in mem && PageSet(old(mem), mem, root, x, w)
    {
      hide Drawn;
      WritePage(mem, root, at, table, x, w);
      mem := mem[table := mem[table][idx := w]];
    }

    /** The head of pmd_map: the level 2 table below the top entry for page v. */
    method SecondTable(v: nat) returns (o: Outcome, pmd: int)
      requires Valid() && v < PAGES
      modifies this`mem, this`pool, this`at
      ensures o.OutOfMemory? <==> old(pool) == [] && old(Entry(mem, root, I(v))) == EMPTY
      ensures o.Done? ==> |old(pool)| == |pool| + if old(Entry(mem, root, I(v))) == EMPTY then 1 else 0
      ensures !o.StrayWrite?
      ensures o.Done? ==>
                && Valid()
                && pmd - offset >= 0
                && IsTable(Entry(mem, root, I(v))) && Entry(mem, root, I(v)).frame == pmd - offset
                && NoChange(old(mem), mem, root)
                && (forall i: nat | i != I(v) :: Entry(mem, root, i) == old(Entry(mem, root, i)))
    {
      hide Drawn;
      var idx := v / GIGA % 512;
      ghost var m0 := mem;
      if mem[root][idx] == EMPTY {
        pmd := PtAlloc(Second(I(v)));
        if pmd == 0 {
          return OutOfMemory, 0;
        }
        ghost var m1 := mem;
        AddTable(m0, root, old(at), pmd - offset, Second(I(v)));
        var w := Word(pmd - offset, {VALID, TABLE_BIT});
        LinkSecond(m1, root, at, v, w);
        mem := mem[root := mem[root][idx := w]];
      } else {
        assert PointsTo(mem, at, mem[root][idx], Second(idx));
        pmd := mem[root][idx].frame + offset;
      }
      NoChangeLive(m0, mem, root);
      o := Done;
    }

    /** *pmd = w, for a block of 512 pages from v on. */
    method SetBlock(f: nat, v: nat, p: nat, flags: set<nat>)
      requires Valid() && v % 512 == 0 && v + 512 <= PAGES && p % 512 == 0
      requires IsTable(Entry(mem, root, I(v))) && Entry(mem, root, I(v)).frame == f
      modifies this`mem
      ensures Valid() && ChunkSet(old(mem), mem, root, v, v + 512, p, flags, true)
    {
      hide Drawn;
      var w := Word(p / 512 * 512, {VALID} + (flags - {TABLE_BIT}));
      assert at[f] == Second(I(v));
      ghost var m0 := mem;
      WriteSecond(mem, root, at, f, v, w);
      mem := mem[f := mem[f][v / 512 % 512 := w]];
      BlockSet(m0, mem, root, v, p, flags);
      LiveAfter(m0, mem, root, v);
    }

    /** One iteration of pmd_map: pages [a, b) of r, all below one level 2 entry, r having been
        mapped up to a since the tables were m1. */
    method MapChunk(table: nat, a: nat, b: nat, p: nat, flags: set<nat>, ghost m1: Memory, ghost r: Region)
      returns (o: Outcome)
      requires Valid() && IsChunk(r, a, b) && r.first + r.d >= 0 && p == a + r.d && flags == r.flags
      requires IsTable(Entry(mem, root, I(a))) && Entry(mem, root, I(a)).frame == table
      requires MapDone(m1, mem, root, r, a) && Clear(m1, root, r, a)
      modifies this`mem, this`pool, this`at
      ensures o.OutOfMemory? <==> old(pool) == [] && ThirdsAt(m1, root, r, a) == 1
      ensures o.Done? ==> |old(pool)| == |pool| + ThirdsAt(m1, root, r, a)
      ensures !o.Done? ==> |old(pool)| == |pool|
      ensures o.StrayWrite? <==> Conflict(m1, root, r, a)
      ensures o.Done? ==>
                && Valid()
                && TopKept(old(mem), mem, root)
                && MapDone(m1, mem, root, r, b) && Clear(m1, root, r, b)
    {
      ghost var m2 := mem;
      AtChunk(m1, m2, root, r, a, b);
      hide Valid, MapDone, Clear, Conflict, ThirdsAt, Level2, Walk, ChunkSet;
      if a % 512 != 0 || b % 512 != 0 || p % 512 != 0 {
        o := PteMap(table, a, b, p, flags);
        if o.Done? {
          AddPageChunk(m1, m2, mem, root, r, a, b);
          ChunkTop(m2, mem, root, a, b, p, flags, false);
        }
      } else {
        SetBlock(table, a, p, flags);
        AddBlockChunk(m1, m2, mem, root, r, a, b);
        ChunkTop(m2, mem, root, a, b, p, flags, true);
        o := Done;
      }
    }

    /** pmd_map: pages [v, e), all below one top entry. */
    method PmdMap(v: nat, e: nat, p: nat, flags: set<nat>) returns (o: Outcome)
      requires Valid() && v < e <= v / GIGA * GIGA + GIGA && e <= PAGES
      modifies this`mem, this`pool, this`at
      ensures Ends(old(mem), root, Region(v, e, p - v, flags), |old(pool)|, o)
      ensures o.Done? ==>
                && Valid()
                && MapDone(old(mem), mem, root, Region(v, e, p - v, flags), e)
                && |old(pool)| == |pool| + Need(old(mem), root, Region(v, e, p - v, flags), e)
    {
      hide Valid, MapDone, Clear, Conflict, Conflicts, NoChange, Need, SecondsAt, ThirdsAt, Ends;
      ghost var m0, r := mem, Region(v, e, p - v, flags);
      var pmd;
      o, pmd := SecondTable(v);
      FirstPaid(m0, root, r);
      if !o.Done? {
        return;
      }
      ghost var m1 := mem;
      NothingDone(mem, root, r);
      var table: nat := pmd - offset;
      var next, vaddr, paddr := v, v, p;
      while next != e
        invariant v <= next <= e && vaddr == next && paddr == p + (next - v)
        invariant next == v || next == e || next % 512 == 0
        invariant Valid() && |old(pool)| == |pool| + Paid(m0, root, r, next)
        invariant IsTable(Entry(mem, root, I(v))) && Entry(mem, root, I(v)).frame == table
        invariant MapDone(m1, mem, root, r, next) && Clear(m1, root, r, next)
        decreases e - next
      {
        next := next / 512 * 512 + 512;
        next := if next < e then next else e;
        PaidNext(m0, m1, root, r, vaddr, next);
        SameTop(v, vaddr);
        o := MapChunk(table, vaddr, next, paddr, flags, m1, r);
        if !o.Done? {
          EndsAt(m0, m1, root, r, |old(pool)|, vaddr, next, o);
          return;
        }
        paddr := paddr + (next - vaddr);
        vaddr := next;
      }
      PmdMapDone(m0, m1, mem, root, r);
      EndsDone(m0, root, r, |old(pool)|);
      o := Done;
    }

    /** One iteration of pud_map: pages [a, b) of r, all below one top entry, r having been mapped
        up to a since the tables were m0. */
    method MapPart(a: nat, b: nat, p: nat, flags: set<nat>, ghost m0: Memory, ghost r: Region) returns (o: Outcome)
      requires Valid() && IsPart(r, a, b)
      requires r.first + r.d >= 0 && p == a + r.d && flags == r.flags
      requires MapDone(m0, mem, root, r, a) && Clear(m0, root, r, a)
      modifies this`mem, this`pool, this`at
      ensures !o.Done? ==> Ends(m0, root, r, |old(pool)| + Need(m0, root, r, a), o)
      ensures o.Done? ==>
                && Valid() && MapDone(m0, mem, root, r, b) && Clear(m0, root, r, b)
                && |old(pool)| + Need(m0, root, r, a) == |pool| + Need(m0, root, r, b)
    {
      hide Valid, MapDone, Clear, Conflict, Conflicts, Need, Ends;
      ghost var m1 := mem;
      o := PmdMap(a, b, p, flags);
      SubNeed(m0, m1, root, r, a, b, b);
      if o.Done? {
        EndsClear(m1, root, Region(a, b, r.d, r.flags), |old(pool)|);
        AddSubRegion(m0, m1, mem, root, r, a, b);
      } else {
        SubEnds(m0, m1, root, r, a, b, |old(pool)|, o);
      }
    }

    /** pt_map and, with offset 0, idmap_pt_map, on page numbers: n pages from v on. */
    method MapPages(v: nat, n: nat, p: nat, flags: set<nat>) returns (o: Outcome)
      requires Valid() && n > 0 && v + n <= PAGES
      modifies this`mem, this`pool, this`at
      ensures Ends(old(mem), root, Region(v, v + n, p - v, flags), |old(pool)|, o)
      ensures o.Done? ==>
                && Valid()
                && Updated(old(mem), mem, root, Region(v, v + n, p - v, flags))
                && |old(pool)| == |pool| + Need(old(mem), root, Region(v, v + n, p - v, flags), v + n)
    {
      hide Valid, MapDone, Clear, Conflict, Conflicts, Updated, Need, Ends, IsPart;
      var e := v + n;
      ghost var m0, r := mem, Region(v, e, p - v, flags);
      NothingDone(mem, root, r);
      var next, vaddr, paddr := v, v, p;
      while next != e
        invariant v <= next <= e && vaddr == next && paddr == p + (next - v)
        invariant next == v || next == e || next % GIGA == 0
        invariant Valid() && |old(pool)| == |pool| + Need(m0, root, r, next)
        invariant MapDone(m0, mem, root, r, next) && Clear(m0, root, r, next)
        decreases e - next
      {
        next := next / GIGA * GIGA + GIGA;
        GigaAligned(vaddr);
        next := if next < e then next else e;
        NextPart(r, vaddr, next);
        o := MapPart(vaddr, next, paddr, flags, m0, r);
        if !o.Done? {
          return;
        }
        paddr := paddr + (next - vaddr);
        vaddr := next;
      }
      AllDone(m0, mem, root, r);
      EndsDone(m0, root, r, |old(pool)|);
      o := Done;
    }

    /** pt_map and idmap_pt_map on byte addresses; the assertions of the source are the first
        requirements, and the range must neither leave the table nor the physical addresses. */
    method PtMap(vaddr: nat, paddr: nat, size: nat, attr: set<nat>) returns (o: Outcome)
      requires Valid() && vaddr % 4096 == 0 && paddr % 4096 == 0 && size > 0
      requires vaddr + size <= 4096 * PAGES && paddr + size <= 4096 * FRAMES
      requires forall b | b in attr :: b < 12 || 48 <= b < 64
      modifies this`mem, this`pool, this`at
      ensures var r := ByteRegion(vaddr, paddr, size, attr);
              && Ends(old(mem), root, r, |old(pool)|, o)
              && (o.Done? ==> Valid() && Updated(old(mem), mem, root, r))
              && (o.Done? ==> |old(pool)| == |pool| + Need(old(mem), root, r, r.end))
      ensures o.Done? ==> RangeMapped(old(mem), mem, root, vaddr, paddr, size, attr)
      ensures o.Done? ==> BytesMapped(old(mem), mem, root, vaddr, paddr, size)
    {
      hide Valid, Ends, Need, Updated;
      var end := PageEnd(vaddr + size);
      o := MapPages(vaddr / 4096, (end - vaddr) / 4096, paddr / 4096, attr);
      if o.Done? {
        RangeFollows(old(mem), mem, root, vaddr, paddr, size, attr);
        BytesFollow(old(mem), mem, root, vaddr, paddr, size, attr);
      }
    }
  }

  /** ALIGN(a, PAGE_SIZE) */
  function PageEnd(a: nat): (e: nat)
    ensures a <= e < a + 4096 && e % 4096 == 0
  {
    (a + 4095) / 4096 * 4096
  }

  function ByteRegion(vaddr: nat, paddr: nat, size: nat, attr: set<nat>): (r: Region)
    requires vaddr % 4096 == 0 && paddr % 4096 == 0
  {
    Region(vaddr / 4096, PageEnd(vaddr + size) / 4096, paddr / 4096 - vaddr / 4096, attr)
  }

  /** Every byte address of the pages from vaddr on translates to the one as far behind paddr,
      every other one as before. */
  ghost predicate BytesMapped(m: Memory, m': Memory, root: nat, vaddr: nat, paddr: nat, size: nat) {
    forall va: nat | va < 4096 * PAGES ::
      Translate(m', root, va) ==
      if vaddr <= va < PageEnd(vaddr + size) then paddr + (va - vaddr) else Translate(m, root, va)
  }

  /** Every byte address of the pages from vaddr on walks to the frame of the one as far behind paddr, with
      the attribute bits asked for; the walk of every other one is as before. */
  ghost predicate RangeMapped(m: Memory, m': Memory, root: nat, vaddr: nat, paddr: nat, size: nat, attr: set<nat>) {
    forall va: nat | va < 4096 * PAGES ::
      var l := Walk(m', root, va / 4096);
      if vaddr <= va < PageEnd(vaddr + size) then
        l.Mapped? && l.frame == (paddr + (va - vaddr)) / 4096 && l.attr == attr - {0, 1}
      else
        l == Walk(m, root, va / 4096)
  }

  lemma InRange(vaddr: nat, paddr: nat, size: nat, attr: set<nat>, va: nat)
    requires vaddr % 4096 == 0 && paddr % 4096 == 0
    ensures var r, x := ByteRegion(vaddr, paddr, size, attr), va / 4096;
            && (r.Holds(x) <==> vaddr <= va < PageEnd(vaddr + size))
            && (r.Holds(x) ==> x + r.d >= 0 && x + r.d == (paddr + (va - vaddr)) / 4096)
            && r.flags == attr
  {
    var v, p, x := vaddr / 4096, paddr / 4096, va / 4096;
    assert vaddr == 4096 * v && paddr == 4096 * p;
    if vaddr <= va {
      assert paddr + (va - vaddr) == 4096 * (p + (x - v)) + va % 4096;
    }
  }

  lemma RangeFollows(m: Memory, m': Memory, root: nat, vaddr: nat, paddr: nat, size: nat, attr: set<nat>)
    requires vaddr % 4096 == 0 && paddr % 4096 == 0
    requires Updated(m, m', root, ByteRegion(vaddr, paddr, size, attr))
    ensures RangeMapped(m, m', root, vaddr, paddr, size, attr)
  {
    var r := ByteRegion(vaddr, paddr, size, attr);
    hide Walk, ByteRegion;
    forall va: nat | va < 4096 * PAGES
      ensures var l := Walk(m', root, va / 4096);
              if vaddr <= va < PageEnd(vaddr + size) then
                l.Mapped? && l.frame == (paddr + (va - vaddr)) / 4096 && l.attr == attr - {0, 1}
              else
                l == Walk(m, root, va / 4096)
    {
      InRange(vaddr, paddr, size, attr, va);
      assert Walk(m', root, va / 4096) == Update(r, Walk(m, root, va / 4096), va / 4096);
      assert Attr(attr) == attr - {0, 1};
    }
  }

  lemma BytesFollow(m: Memory, m': Memory, root: nat, vaddr: nat, paddr: nat, size: nat, attr: set<nat>)
    requires vaddr % 4096 == 0 && paddr % 4096 == 0
    requires Updated(m, m', root, ByteRegion(vaddr, paddr, size, attr))
    ensures BytesMapped(m, m', root, vaddr, paddr, size)
  {
    var r, end := ByteRegion(vaddr, paddr, size, attr), PageEnd(vaddr + size);
    forall va: nat | va < 4096 * PAGES
      ensures Translate(m', root, va) == if vaddr <= va < end then paddr + (va - vaddr) else Translate(m, root, va)
    {
      var x := va / 4096;
      assert r.Holds(x) <==> vaddr <= va < end;
      assert Walk(m', root, x) == Update(r, Walk(m, root, x), x);
    }
  }

  /** The byte address that va translates to. */
  function Translate(m: Memory, root: nat, va: nat): (pa: int) {
    match Walk(m, root, va / 4096)
    case Fault => -1
    case Mapped(f, _, _) => f * 4096 + va % 4096
  }

  ghost predicate Conflicts(m: Memory, root: nat, r: Region) {
    exists x: nat :: Conflict(m, root, r, x)
  }

  /** [a, b) is what r has in one 2 MiB chunk. */
  ghost predicate IsChunk(r: Region, a: nat, b: nat) {
    && r.first <= a < b <= r.end <= PAGES && (a == r.first || a % 512 == 0)
    && b == if a / 512 * 512 + 512 < r.end then a / 512 * 512 + 512 else r.end
  }

  lemma ChunkBounds(r: Region, a: nat, b: nat)
    requires IsChunk(r, a, b)
    ensures b <= a / 512 * 512 + 512
    ensures a % 512 == 0 && b % 512 == 0 ==> b == a + 512
    ensures forall y: nat | a <= y < b :: y / 512 == a / 512
    ensures Untouched(r.first, a, a)
  {
  }

  /** What pmd_map meets at chunk [a, b) of r, mapped up to a so far: the level 2 entry from before. */
  lemma AtChunk(m1: Memory, m2: Memory, root: nat, r: Region, a: nat, b: nat)
    requires IsChunk(r, a, b) && MapDone(m1, m2, root, r, a)
    ensures b <= a / 512 * 512 + 512 && (a % 512 == 0 && b % 512 == 0 ==> b == a + 512)
    ensures if a % 512 != 0 || b % 512 != 0 || (a + r.d) % 512 != 0 then
              && ThirdsAt(m1, root, r, a) == (if Level2(m2, root, a) == EMPTY then 1 else 0)
              && (Conflict(m1, root, r, a) <==> IsBlock(Level2(m2, root, a)))
            else
              ThirdsAt(m1, root, r, a) == 0 && !Conflict(m1, root, r, a)
  {
    ChunkBounds(r, a, b);
    assert Level2(m1, root, a) == Level2(m2, root, a);
    hide MapDone, Level2;
    if a % 512 != 0 || b % 512 != 0 || (a + r.d) % 512 != 0 {
      PageMode(r, a, b, a);
    } else {
      assert r.ByBlock(a);
    }
  }

  lemma ChunkTop(m: Memory, m': Memory, root: nat, v: nat, e: nat, p: nat, flags: set<nat>, block: bool)
    requires ChunkSet(m, m', root, v, e, p, flags, block)
    ensures TopKept(m, m', root)
  {
  }

  lemma NothingDone(m: Memory, root: nat, r: Region)
    ensures MapDone(m, m, root, r, r.first) && Clear(m, root, r, r.first) && Need(m, root, r, r.first) == 0
  {
  }

  lemma AllDone(m0: Memory, m1: Memory, root: nat, r: Region)
    requires MapDone(m0, m1, root, r, r.end) && Clear(m0, root, r, r.end) && r.first + r.d >= 0
    ensures Updated(m0, m1, root, r)
  {
  }

  lemma SameTop(v: nat, x: nat)
    requires v <= x < v / GIGA * GIGA + GIGA
    ensures I(x) == I(v)
  {
  }

  lemma PmdMapDone(m0: Memory, m1: Memory, m2: Memory, root: nat, r: Region)
    requires NoChange(m0, m1, root) && MapDone(m1, m2, root, r, r.end) && Clear(m1, root, r, r.end)
    requires r.first < r.end && forall i: nat | i != I(r.first) :: Entry(m1, root, i) == Entry(m0, root, i)
    ensures MapDone(m0, m2, root, r, r.end) && Clear(m0, root, r, r.end)
  {
    forall x: nat ensures !Conflict(m0, root, r, x) {
      assert x < r.end ==> !Conflict(m1, root, r, x);
    }
  }

  lemma {:induction false} NeedGrows(m: Memory, root: nat, r: Region, a: nat, b: nat)
    requires a <= b
    ensures Need(m, root, r, a) <= Need(m, root, r, b)
    decreases b
  {
    if a < b {
      NeedGrows(m, root, r, a, b - 1);
    }
  }

  /** Inside a chunk no further table is taken. */
  lemma {:induction false} NeedChunk(m: Memory, root: nat, r: Region, a: nat, b: nat)
    requires r.first <= a < b <= a / 512 * 512 + 512
    ensures Need(m, root, r, b) == Need(m, root, r, a) + SecondsAt(m, root, r, a) + ThirdsAt(m, root, r, a)
    decreases b
  {
    hide Entry, Level2, I, Region.ByBlock;
    if a + 1 < b {
      NeedChunk(m, root, r, a, b - 1);
      InnerPage(a, b - 1);
    }
  }

  lemma InnerPage(a: nat, x: nat)
    requires a < x < a / 512 * 512 + 512
    ensures x % 512 != 0 && x % GIGA != 0
  {
    assert x % 512 != 0;
    GigaAligned(x);
  }

  /** What has been taken for r up to page x, the level 2 table of its first page included. */
  ghost function Paid(m: Memory, root: nat, r: Region, x: nat): (n: nat) {
    Need(m, root, r, x) + if x == r.first then SecondsAt(m, root, r, x) else 0
  }

  lemma PaidNext(m0: Memory, m1: Memory, root: nat, r: Region, a: nat, b: nat)
    requires IsChunk(r, a, b) && r.end <= r.first / GIGA * GIGA + GIGA && NoChange(m0, m1, root)
    ensures Paid(m0, root, r, b) == Need(m0, root, r, b) == Paid(m0, root, r, a) + ThirdsAt(m1, root, r, a)
  {
    NeedChunk(m0, root, r, a, b);
    if a != r.first {
      NotGiga(r.first, a);
    }
    assert Level2(m0, root, a) == Level2(m1, root, a);
    hide NoChange, Level2, Need, Entry;
  }

  lemma NotGiga(v: nat, a: nat)
    requires v < a < v / GIGA * GIGA + GIGA
    ensures a % GIGA != 0
  {
  }

  /** Before the first chunk: the level 2 table of the first page. */
  lemma FirstPaid(m: Memory, root: nat, r: Region)
    requires r.first < r.end <= PAGES
    ensures Paid(m, root, r, r.first) == if Entry(m, root, I(r.first)) == EMPTY then 1 else 0
    ensures Entry(m, root, I(r.first)) == EMPTY ==> Ends(m, root, r, 0, OutOfMemory)
  {
    if Entry(m, root, I(r.first)) == EMPTY {
      assert Level2(m, root, r.first) == EMPTY;
      var hi := r.first + 1;
      assert Clear(m, root, r, hi) && Need(m, root, r, hi) > 0;
    }
  }

  lemma ChunkClear(m: Memory, root: nat, r: Region, a: nat, b: nat)
    requires IsChunk(r, a, b) && Clear(m, root, r, a) && !IsBlock(Level2(m, root, a))
    ensures Clear(m, root, r, b)
  {
    ChunkBounds(r, a, b);
    SameSecond(m, root, a);
  }

  /** Pages run out at chunk [a, b), or a block stands in its way. */
  lemma EndsAt(m0: Memory, m1: Memory, root: nat, r: Region, n: nat, a: nat, b: nat, o: Outcome)
    requires IsChunk(r, a, b) && NoChange(m0, m1, root) && Clear(m1, root, r, a)
    requires o.OutOfMemory? ==> ThirdsAt(m1, root, r, a) == 1 && n < Need(m0, root, r, b)
    requires o.StrayWrite? ==> Conflict(m1, root, r, a) && n >= Need(m0, root, r, a)
    requires !o.Done?
    ensures Ends(m0, root, r, n, o)
  {
    assert Clear(m0, root, r, a) by {
      assert forall x: nat | x < a :: Conflict(m0, root, r, x) ==> Conflict(m1, root, r, x);
    }
    if o.OutOfMemory? {
      ChunkClear(m0, root, r, a, b);
    } else {
      assert Conflict(m0, root, r, a);
      ConflictFirst(m0, root, r, n, a);
    }
  }

  lemma ConflictFirst(m: Memory, root: nat, r: Region, n: nat, a: nat)
    requires Conflict(m, root, r, a) && n >= Need(m, root, r, a)
    ensures !RunsOut(m, root, r, n)
  {
    forall hi: nat | hi <= r.end && Clear(m, root, r, hi) ensures Need(m, root, r, hi) <= n {
      NeedGrows(m, root, r, hi, a);
    }
  }

  lemma EndsDone(m: Memory, root: nat, r: Region, n: nat)
    requires Clear(m, root, r, r.end) && n >= Need(m, root, r, r.end)
    ensures Ends(m, root, r, n, Done)
  {
    forall hi: nat | hi <= r.end ensures Need(m, root, r, hi) <= n {
      NeedGrows(m, root, r, hi, r.end);
    }
  }

  lemma EndsClear(m: Memory, root: nat, r: Region, n: nat)
    requires Ends(m, root, r, n, Done)
    ensures !Conflicts(m, root, r)
  {
  }

  /** Without a block in the way, pages run out exactly when there are fewer than tables to take. */
  lemma RunsOutIff(m: Memory, root: nat, r: Region, n: nat)
    requires !Conflicts(m, root, r)
    ensures RunsOut(m, root, r, n) <==> n < Need(m, root, r, r.end)
  {
    assert Clear(m, root, r, r.end);
    if n >= Need(m, root, r, r.end) {
      EndsDone(m, root, r, n);
    }
  }

  lemma DivStep(x: nat, d: nat)
    requires x > 0 && (d == 512 || d == GIGA)
    ensures x / d == (x - 1) / d + if x % d == 0 then 1 else 0
  {
  }

  lemma TablesStep(v: nat, x: nat)
    requires v <= x
    ensures TablesFor(v, x + 1) == TablesFor(v, x)
              + (if x == v || x % 512 == 0 then 1 else 0) + if x == v || x % GIGA == 0 then 1 else 0
  {
    if x > v {
      DivStep(x, 512);
      DivStep(x, GIGA);
    }
  }

  /** Never more than one table for each 2 MiB and each 1 GiB met. */
  lemma {:induction false} NeedBound(m: Memory, root: nat, r: Region, hi: nat)
    requires r.first <= hi
    ensures Need(m, root, r, hi) <= TablesFor(r.first, hi)
    decreases hi
  {
    if r.first < hi {
      NeedBound(m, root, r, hi - 1);
      TablesStep(r.first, hi - 1);
      hide TablesFor, Entry, Level2, Region.ByBlock;
    }
  }

  /** [a, b) is what r has below one top entry. */
  ghost predicate IsPart(r: Region, a: nat, b: nat) {
    && r.first <= a < b <= r.end <= PAGES && b <= a / GIGA * GIGA + GIGA
    && (a == r.first || a % GIGA == 0) && (a == r.first || a % 512 == 0) && (b == r.end || b % 512 == 0)
  }

  lemma NextPart(r: Region, a: nat, b: nat)
    requires r.first <= a < r.end <= PAGES && (a == r.first || a % GIGA == 0)
    requires b == if a / GIGA * GIGA + GIGA < r.end then a / GIGA * GIGA + GIGA else r.end
    ensures IsPart(r, a, b)
  {
    GigaAligned(a);
  }

  /** Mapping a part takes the tables that r takes there. */
  lemma {:induction false} SubNeed(m0: Memory, m1: Memory, root: nat, r: Region, a: nat, b: nat, hi: nat)
    requires IsPart(r, a, b) && MapDone(m0, m1, root, r, a) && a <= hi <= b
    ensures Need(m1, root, Region(a, b, r.d, r.flags), hi) + Need(m0, root, r, a) == Need(m0, root, r, hi)
    decreases hi
  {
    assert r.first <= a;
    hide MapDone, IsPart, SecondsAt, ThirdsAt;
    if a < hi {
      SubNeed(m0, m1, root, r, a, b, hi - 1);
      SubCost(m0, m1, root, r, a, b, hi - 1);
    }
  }

  lemma SubCost(m0: Memory, m1: Memory, root: nat, r: Region, a: nat, b: nat, x: nat)
    requires IsPart(r, a, b) && MapDone(m0, m1, root, r, a) && a <= x < b
    ensures var q := Region(a, b, r.d, r.flags);
            && SecondsAt(m1, root, q, x) == SecondsAt(m0, root, r, x)
            && ThirdsAt(m1, root, q, x) == ThirdsAt(m0, root, r, x)
  {
    SubBlocks(r, a, b, x);
    Beyond(r, a, x);
    SameTop(a, x);
    assert TopUntouched(r.first, a, I(x));
    assert Entry(m1, root, I(x)) == Entry(m0, root, I(x)) && Level2(m1, root, x) == Level2(m0, root, x);
    hide MapDone, Entry, Level2, I, Region.ByBlock;
  }

  /** The pages and tables of a part are those of r there. */
  lemma SubSame(m0: Memory, m1: Memory, root: nat, r: Region, a: nat, b: nat)
    requires IsPart(r, a, b) && MapDone(m0, m1, root, r, a) && Clear(m0, root, r, a)
    ensures var q := Region(a, b, r.d, r.flags);
            && (forall x: nat | a <= x < b :: Conflict(m1, root, q, x) <==> Conflict(m0, root, r, x))
            && (forall hi: nat | a <= hi <= b ::
                  && Need(m1, root, q, hi) + Need(m0, root, r, a) == Need(m0, root, r, hi)
                  && (Clear(m1, root, q, hi) <==> Clear(m0, root, r, hi)))
  {
    var q := Region(a, b, r.d, r.flags);
    forall x: nat | a <= x < b ensures Conflict(m1, root, q, x) <==> Conflict(m0, root, r, x) {
      SubConflict(m0, m1, root, r, a, b, x);
    }
    forall hi: nat | a <= hi <= b
      ensures Need(m1, root, q, hi) + Need(m0, root, r, a) == Need(m0, root, r, hi)
      ensures Clear(m1, root, q, hi) <==> Clear(m0, root, r, hi)
    {
      SubNeed(m0, m1, root, r, a, b, hi);
      SubClearIff(m0, m1, root, r, a, b, hi);
    }
  }

  lemma SubClearIff(m0: Memory, m1: Memory, root: nat, r: Region, a: nat, b: nat, hi: nat)
    requires a <= hi <= b && Clear(m0, root, r, a)
    requires forall x: nat | a <= x < b ::
               Conflict(m1, root, Region(a, b, r.d, r.flags), x) <==> Conflict(m0, root, r, x)
    ensures Clear(m1, root, Region(a, b, r.d, r.flags), hi) <==> Clear(m0, root, r, hi)
  {
    assert forall x: nat | x < a :: !Conflict(m1, root, Region(a, b, r.d, r.flags), x);
    hide Conflict;
  }

  /** How a part ends, r ends. */
  lemma SubEnds(m0: Memory, m1: Memory, root: nat, r: Region, a: nat, b: nat, n: nat, o: Outcome)
    requires IsPart(r, a, b) && MapDone(m0, m1, root, r, a) && Clear(m0, root, r, a) && !o.Done?
    requires Ends(m1, root, Region(a, b, r.d, r.flags), n, o)
    ensures Ends(m0, root, r, n + Need(m0, root, r, a), o)
  {
    var q := Region(a, b, r.d, r.flags);
    SubSame(m0, m1, root, r, a, b);
    if o.OutOfMemory? {
      hide MapDone, Need, Conflict, Clear;
      var hi: nat :| hi <= b && Clear(m1, root, q, hi) && n < Need(m1, root, q, hi);
      NeedFrom(m1, root, q, hi);
      assert Clear(m0, root, r, hi);
    } else {
      SubStray(m0, m1, root, r, a, b, n);
    }
  }

  lemma SubStray(m0: Memory, m1: Memory, root: nat, r: Region, a: nat, b: nat, n: nat)
    requires IsPart(r, a, b) && MapDone(m0, m1, root, r, a) && Clear(m0, root, r, a)
    requires Ends(m1, root, Region(a, b, r.d, r.flags), n, StrayWrite)
    ensures Ends(m0, root, r, n + Need(m0, root, r, a), StrayWrite)
  {
    var q := Region(a, b, r.d, r.flags);
    SubSame(m0, m1, root, r, a, b);
    var x: nat :| Conflict(m1, root, q, x);
    assert a <= x < b && Conflict(m0, root, r, x);
    hide MapDone, Need;
    forall hi: nat | hi <= r.end && Clear(m0, root, r, hi)
      ensures Need(m0, root, r, hi) <= n + Need(m0, root, r, a)
    {
      assert hi <= x;
      if hi < a {
        NeedGrows(m0, root, r, hi, a);
      } else {
        assert Clear(m1, root, q, hi);
      }
    }
  }

  lemma NeedFrom(m: Memory, root: nat, r: Region, hi: nat)
    requires Need(m, root, r, hi) > 0
    ensures hi > r.first
  {
  }

  lemma GigaMultiple(q: nat)
    ensures (GIGA * q) % GIGA == 0 && (GIGA * q) % 512 == 0
  {
    assert GIGA * q == 512 * (512 * q);
    Multiple(512, 512 * q);
    Multiple(GIGA, q);
  }

  lemma Multiple(d: nat, k: nat)
    requires d == 512 || d == GIGA
    ensures (d * k) % d == 0
  {
  }

  lemma GigaAligned(x: nat)
    ensures x % GIGA == 0 ==> x % 512 == 0
    ensures (x / GIGA * GIGA + GIGA) % GIGA == 0 && (x / GIGA * GIGA + GIGA) % 512 == 0
  {
    var q := x / GIGA;
    GigaMultiple(q);
    GigaMultiple(q + 1);
    assert q * GIGA + GIGA == GIGA * (q + 1);
    assert x % GIGA == 0 ==> x == GIGA * q;
  }

  /** Inside a part of r cut at multiples of 2 MiB, blocks are used where r uses them. */
  lemma SubBlocks(r: Region, a: nat, b: nat, x: nat)
    requires r.first <= a <= x < b <= r.end
    requires (a == r.first || a % 512 == 0) && (b == r.end || b % 512 == 0)
    ensures Region(a, b, r.d, r.flags).ByBlock(x) == r.ByBlock(x)
  {
  }

  lemma SubConflict(m0: Memory, m1: Memory, root: nat, r: Region, a: nat, b: nat, x: nat)
    requires r.first <= a < b <= r.end <= PAGES
    requires (a == r.first || a % 512 == 0) && (b == r.end || b % 512 == 0)
    requires MapDone(m0, m1, root, r, a) && a <= x < b
    ensures Conflict(m1, root, Region(a, b, r.d, r.flags), x) <==> Conflict(m0, root, r, x)
  {
    SubBlocks(r, a, b, x);
    Beyond(r, a, x);
  }

  /** Pages from a on are below level 2 entries that mapping r up to a did not touch. */
  lemma Beyond(r: Region, a: nat, x: nat)
    requires r.first <= a <= x && (a == r.first || a % 512 == 0)
    ensures Untouched(r.first, a, x)
  {
  }

  lemma SubClear(m0: Memory, m1: Memory, root: nat, r: Region, a: nat, b: nat)
    requires IsPart(r, a, b) && MapDone(m0, m1, root, r, a)
    requires Clear(m0, root, r, a) && !Conflicts(m1, root, Region(a, b, r.d, r.flags))
    ensures Clear(m0, root, r, b)
  {
    forall x: nat | a <= x < b ensures !Conflict(m0, root, r, x) {
      SubConflict(m0, m1, root, r, a, b, x);
    }
  }

  lemma SubUntouched(m0: Memory, m1: Memory, m2: Memory, root: nat, r: Region, a: nat, b: nat)
    requires IsPart(r, a, b) && MapDone(m0, m1, root, r, a) && MapDone(m1, m2, root, Region(a, b, r.d, r.flags), b)
    ensures forall i: nat | TopUntouched(r.first, b, i) :: Entry(m2, root, i) == Entry(m0, root, i)
    ensures forall y: nat | y < PAGES && Untouched(r.first, b, y) :: Level2(m2, root, y) == Level2(m0, root, y)
  {
    hide Walk, Level2, Entry, I, Update, TopUntouched, Untouched;
    forall y: nat | y < PAGES && Untouched(r.first, b, y) ensures Level2(m2, root, y) == Level2(m0, root, y) {
      ChunksApart(r.first, a, b, y);
    }
    forall i: nat | TopUntouched(r.first, b, i) ensures Entry(m2, root, i) == Entry(m0, root, i) {
      TopsApart(r.first, a, b, i);
    }
  }

  /** Mapping a part after what is before it. */
  lemma AddSubRegion(m0: Memory, m1: Memory, m2: Memory, root: nat, r: Region, a: nat, b: nat)
    requires IsPart(r, a, b) && MapDone(m0, m1, root, r, a) && MapDone(m1, m2, root, Region(a, b, r.d, r.flags), b)
    requires Clear(m0, root, r, a) && !Conflicts(m1, root, Region(a, b, r.d, r.flags))
    ensures MapDone(m0, m2, root, r, b) && Clear(m0, root, r, b)
  {
    SubClear(m0, m1, root, r, a, b);
    SubUntouched(m0, m1, m2, root, r, a, b);
    forall x: nat | a <= x < b ensures Region(a, b, r.d, r.flags).ByBlock(x) == r.ByBlock(x) {
      SubBlocks(r, a, b, x);
    }
    hide Walk, Level2, Entry, I, Clear, Conflicts, Region.ByBlock, TopUntouched, Untouched, IsPart;
  }

  lemma ChunksApart(first: nat, a: nat, b: nat, y: nat)
    requires first <= a < b && Untouched(first, b, y)
    ensures Untouched(first, a, y) && Untouched(a, b, y)
  {
  }

  lemma TopsApart(first: nat, a: nat, b: nat, i: nat)
    requires first <= a < b && TopUntouched(first, b, i)
    ensures TopUntouched(first, a, i) && TopUntouched(a, b, i)
  {
  }

  /** Walks and level 2 descriptors are all as before. */
  ghost predicate NoChange(m: Memory, m': Memory, root: nat) {
    forall y: nat | y < PAGES :: Level2(m', root, y) == Level2(m, root, y) && Walk(m', root, y) == Walk(m, root, y)
  }

  lemma NoChangeLive(m: Memory, m': Memory, root: nat)
    requires NoChange(m, m', root) && Live(m, root)
    ensures Live(m', root)
  {
    forall y: nat | y < PAGES && IsTable(Level2(m', root, y)) ensures MapsNear(m', root, y) {
      assert MapsNear(m, root, y);
    }
  }

  /** One 2 MiB chunk is done: [v, e) walks to consecutive pages from p on and nothing else
      changed. */
  ghost predicate ChunkSet(m: Memory, m': Memory, root: nat, v: nat, e: nat, p: nat, flags: set<nat>, block: bool) {
    && TopKept(m, m', root)
    && (forall y: nat | y < PAGES && y / 512 != v / 512 :: Level2(m', root, y) == Level2(m, root, y))
    && (forall y: nat | y < PAGES :: Walk(m', root, y) ==
          if v <= y < e then Mapped(p + (y - v), Attr(flags), block) else Walk(m, root, y))
  }

  lemma BlockSet(m: Memory, m': Memory, root: nat, v: nat, p: nat, flags: set<nat>)
    requires v % 512 == 0 && v + 512 <= PAGES && p % 512 == 0
    requires IsTable(Entry(m', root, I(v))) && TopKept(m, m', root)
    requires forall y: nat | y < PAGES && y / 512 == v / 512 ::
               Level2(m', root, y) == Word(p / 512 * 512, {VALID} + (flags - {TABLE_BIT}))
    requires forall y: nat | y < PAGES && y / 512 != v / 512 ::
               Level2(m', root, y) == Level2(m, root, y) && Walk(m', root, y) == Walk(m, root, y)
    ensures ChunkSet(m, m', root, v, v + 512, p, flags, true)
  {
    assert Attr({VALID} + (flags - {TABLE_BIT})) == Attr(flags);
    forall y: nat | v <= y < v + 512
      ensures Walk(m', root, y) == Mapped(p + (y - v), Attr(flags), true)
    {
      assert y / 512 == v / 512;
      Decompose(y);
      Decompose(v);
    }
  }

  /** Was the level 2 descriptor for y left alone while [first, hi) was mapped? */
  predicate Untouched(first: nat, hi: nat, y: nat) {
    hi <= first || y / 512 < first / 512 || y / 512 > (hi - 1) / 512
  }

  /** Was top entry i left alone? */
  predicate TopUntouched(first: nat, hi: nat, i: nat) {
    hi <= first || i < I(first) || i > I(hi - 1)
  }

  /** No page below hi stands in the way of r. */
  ghost predicate Clear(m: Memory, root: nat, r: Region, hi: nat) {
    forall x: nat | x < hi :: !Conflict(m, root, r, x)
  }

  /** Region r has been mapped up to page hi. */
  ghost predicate MapDone(m: Memory, m': Memory, root: nat, r: Region, hi: nat) {
    && (forall i: nat | TopUntouched(r.first, hi, i) :: Entry(m', root, i) == Entry(m, root, i))
    && (forall y: nat | y < PAGES && Untouched(r.first, hi, y) :: Level2(m', root, y) == Level2(m, root, y))
    && (forall y: nat | y < PAGES :: Walk(m', root, y) ==
          if r.first <= y < hi then Update(r, Walk(m, root, y), y) else Walk(m, root, y))
  }

  /** In a chunk [a, b) that is not mapped by a block, ByBlock is false. */
  lemma PageMode(r: Region, a: nat, b: nat, x: nat)
    requires r.first <= a <= x < b <= r.end && x / 512 == a / 512
    requires a % 512 != 0 ==> a == r.first
    requires b == if a / 512 * 512 + 512 < r.end then a / 512 * 512 + 512 else r.end
    requires a % 512 != 0 || b % 512 != 0 || (a + r.d) % 512 != 0
    ensures !r.ByBlock(x)
  {
  }

  lemma AddPageChunk(m1: Memory, m2: Memory, m3: Memory, root: nat, r: Region, a: nat, b: nat)
    requires r.first <= a < b <= r.end <= PAGES && (a == r.first || a % 512 == 0) && r.first + r.d >= 0
    requires b == if a / 512 * 512 + 512 < r.end then a / 512 * 512 + 512 else r.end
    requires a % 512 != 0 || b % 512 != 0 || (a + r.d) % 512 != 0
    requires MapDone(m1, m2, root, r, a) && Clear(m1, root, r, a)
    requires ChunkSet(m2, m3, root, a, b, a + r.d, r.flags, false)
    requires !IsBlock(Level2(m2, root, a))
    ensures MapDone(m1, m3, root, r, b) && Clear(m1, root, r, b)
  {
    TopsKept(m1, m2, m3, root, r, a, b);
    hide Walk, Level2, Entry, I, TopUntouched, TopKept;
    ByPages(m2, root, r, a, b);
    forall y: nat | Untouched(r.first, b, y) ensures Untouched(r.first, a, y) && y / 512 != a / 512 {
      NextChunk(r.first, a, b, y);
    }
  }

  lemma TopsKept(m1: Memory, m2: Memory, m3: Memory, root: nat, r: Region, a: nat, b: nat)
    requires r.first <= a < b && MapDone(m1, m2, root, r, a) && TopKept(m2, m3, root)
    ensures forall i: nat | TopUntouched(r.first, b, i) :: Entry(m3, root, i) == Entry(m1, root, i)
  {
    hide Walk, Level2, Update;
    forall i: nat | TopUntouched(r.first, b, i) ensures Entry(m3, root, i) == Entry(m1, root, i) {
      assert TopUntouched(r.first, a, i);
    }
  }

  lemma NextChunk(first: nat, a: nat, b: nat, y: nat)
    requires first <= a < b && Untouched(first, b, y)
    ensures Untouched(first, a, y) && y / 512 != a / 512
  {
  }

  lemma ByPages(m: Memory, root: nat, r: Region, a: nat, b: nat)
    requires r.first <= a < b <= r.end <= PAGES && (a == r.first || a % 512 == 0) && r.first + r.d >= 0
    requires b == if a / 512 * 512 + 512 < r.end then a / 512 * 512 + 512 else r.end
    requires a % 512 != 0 || b % 512 != 0 || (a + r.d) % 512 != 0
    requires !IsBlock(Level2(m, root, a))
    ensures forall y: nat | a <= y < b ::
              !r.ByBlock(y) && Untouched(r.first, a, y) && !IsBlock(Level2(m, root, y))
  {
    forall y: nat | a <= y < b ensures !r.ByBlock(y) && Untouched(r.first, a, y) && !IsBlock(Level2(m, root, y)) {
      assert y / 512 == a / 512;
      PageMode(r, a, b, y);
      SameSecond(m, root, a);
    }
  }

  lemma AddBlockChunk(m1: Memory, m2: Memory, m3: Memory, root: nat, r: Region, a: nat, b: nat)
    requires r.first <= a < b <= r.end <= PAGES && r.first + r.d >= 0
    requires a % 512 == 0 && b == a + 512 && (a + r.d) % 512 == 0
    requires MapDone(m1, m2, root, r, a) && Clear(m1, root, r, a)
    requires ChunkSet(m2, m3, root, a, b, a + r.d, r.flags, true)
    ensures MapDone(m1, m3, root, r, b) && Clear(m1, root, r, b)
  {
    TopsKept(m1, m2, m3, root, r, a, b);
    hide Walk, Level2, Entry, I, TopUntouched, TopKept;
    forall y: nat | a <= y < b ensures r.ByBlock(y) {
      assert y / 512 * 512 == a;
    }
    forall y: nat | Untouched(r.first, b, y) ensures Untouched(r.first, a, y) && y / 512 != a / 512 {
      NextChunk(r.first, a, b, y);
    }
  }

  /** Only the walk of page x changed, to what w says. */
  ghost predicate PageSet(m: Memory, m': Memory, root: nat, x: nat, w: Word) {
    && TopKept(m, m', root)
    && (forall y: nat | y < PAGES :: Level2(m', root, y) == Level2(m, root, y))
    && (forall y: nat | y < PAGES ::
          Walk(m', root, y) == if y == x then Mapped(w.frame, Attr(w.flags), false) else Walk(m, root, y))
  }

  /** Only the walks of [v, e) changed, to consecutive pages from p on. */
  ghost predicate PagesSet(m: Memory, m': Memory, root: nat, v: nat, e: nat, p: nat, flags: set<nat>) {
    && TopKept(m, m', root)
    && (forall y: nat | y < PAGES :: Level2(m', root, y) == Level2(m, root, y))
    && (forall y: nat | y < PAGES :: Walk(m', root, y) ==
          if v <= y < e then Mapped(p + (y - v), Attr(flags), false) else Walk(m, root, y))
  }

  lemma MorePages(m1: Memory, m2: Memory, m3: Memory, root: nat, v: nat, x: nat, p: nat, flags: set<nat>)
    requires v <= x < PAGES && I(x) == I(v) && PagesSet(m1, m2, root, v, x, p, flags)
    requires PageSet(m2, m3, root, x, Word(p + (x - v), {VALID, TABLE_BIT} + flags))
    ensures PagesSet(m1, m3, root, v, x + 1, p, flags)
  {
    assert Attr({VALID, TABLE_BIT} + flags) == Attr(flags);
  }

  lemma PteMapKeepsLive(m0: Memory, m1: Memory, m2: Memory, root: nat, v: nat, e: nat, p: nat, flags: set<nat>)
    requires Live(m0, root) && v < e <= PAGES && e <= v / 512 * 512 + 512
    requires PagesSet(m1, m2, root, v, e, p, flags)
    requires forall y: nat | y < PAGES :: Walk(m1, root, y) == Walk(m0, root, y)
    requires forall y: nat | y < PAGES && y / 512 != v / 512 :: Level2(m1, root, y) == Level2(m0, root, y)
    ensures Live(m2, root)
  {
    assert Walk(m2, root, v).Mapped?;
    SameSecond(m2, root, v);
    LiveAfter(m0, m2, root, v);
  }

  lemma InChunk(v: nat, x: nat, m: Memory, root: nat)
    requires v <= x < v / 512 * 512 + 512
    ensures x / 512 == v / 512 && I(x) == I(v) && J(x) == J(v) && K(x) == v % 512 + (x - v)
    ensures Level2(m, root, x) == Level2(m, root, v)
  {
    assert x / 512 == v / 512;
    Decompose(x);
    Decompose(v);
  }

  lemma SameSecond(m: Memory, root: nat, v: nat)
    ensures forall y: nat | y / 512 == v / 512 :: Level2(m, root, y) == Level2(m, root, v)
  {
    forall y: nat | y / 512 == v / 512 ensures Level2(m, root, y) == Level2(m, root, v) {
      Decompose(y);
      Decompose(v);
    }
  }

  lemma NewThirdFaults(m: Memory, m': Memory, root: nat, v: nat, g: nat)
    requires v < PAGES && g in m' && m'[g] == ZeroTable()
    requires Entry(m', root, I(v)) == Entry(m, root, I(v)) && IsTable(Entry(m, root, I(v)))
    requires Level2(m, root, v) == EMPTY
    requires IsTable(Level2(m', root, v)) && Level2(m', root, v).frame == g
    ensures forall y: nat | y < PAGES && y / 512 == v / 512 :: Walk(m', root, y) == Walk(m, root, y)
  {
    SameSecond(m, root, v);
    SameSecond(m', root, v);
    forall y: nat | y < PAGES && y / 512 == v / 512 ensures Walk(m', root, y) == Walk(m, root, y) {
      Decompose(y);
      Decompose(v);
    }
  }
}
