/** Sequences of pt_map calls, and the exact case in which a call fails. */
module PageTableRuns {
  import opened PageTable

  // ---------------------------------------------------------------------------------
  // When a call fails

  /** Page x of r is mapped by a block of which r covers a part only, or at another distance. */
  ghost predicate Splits(m: Memory, root: nat, r: Region, x: nat) {
    && x < PAGES && r.Holds(x) && Walk(m, root, x).Mapped? && Walk(m, root, x).block
    && (r.first > x / 512 * 512 || r.end < x / 512 * 512 + 512 || r.d % 512 != 0)
  }

  /** In a tree of tables, blocks are the descriptors that block translations come from. */
  lemma BlockIff(m: Memory, root: nat, at: map<nat, Place>, x: nat)
    requires Tree(m, root, at) && x < PAGES
    ensures IsBlock(Level2(m, root, x)) <==> Walk(m, root, x).Mapped? && Walk(m, root, x).block
  {
    var e1 := Entry(m, root, I(x));
    assert e1 != EMPTY ==> PointsTo(m, at, e1, Second(I(x)));
  }

  /** A region fails exactly when it splits a block that translates one of its pages. */
  lemma ConflictsIff(m: Memory, root: nat, at: map<nat, Place>, r: Region)
    requires Tree(m, root, at)
    ensures Conflicts(m, root, r) <==> exists x: nat :: Splits(m, root, r, x)
  {
    forall x: nat ensures Conflict(m, root, r, x) <==> Splits(m, root, r, x) {
      if x < PAGES {
        BlockIff(m, root, at, x);
      }
    }
  }

  /** One 2 MiB block from page 0 on, then one page inside it, on new tables: the second call is
      about to write into the memory that the block maps. */
  method BlockThenPage(root: nat, offset: int, pool: seq<int>) returns (block: Outcome, page: Outcome)
    requires |pool| >= 1
    requires forall i | 0 <= i < |pool| :: pool[i] > 0 && pool[i] - offset >= 0 && pool[i] - offset != root
    requires forall i, j | 0 <= i < j < |pool| :: pool[i] != pool[j]
    ensures block.Done? && page.StrayWrite?
  {
    hide Tables.Valid, Updated, Conflicts, Need, Ends;
    var t := new Tables(root, offset, pool);
    assert Unmapped(t.mem, root, Region(0, 512, 0, {}));
    UnmappedNoConflict(t.mem, root, Region(0, 512, 0, {}));
    ghost var m := t.mem;
    block := t.MapPages(0, 512, 0, {});
    BlockNeed(m, root, |pool|, block);
    BlockInTheWay(t, m, |t.pool|);
    page := t.MapPages(5, 1, 100, {});
  }

  /** The block takes one table. */
  lemma BlockNeed(m: Memory, root: nat, n: nat, o: Outcome)
    requires n >= 1 && !Conflicts(m, root, Region(0, 512, 0, {})) && Ends(m, root, Region(0, 512, 0, {}), n, o)
    ensures o.Done?
  {
    var r := Region(0, 512, 0, {});
    NeedChunk(m, root, r, 0, 512);
    assert r.ByBlock(0) && Need(m, root, r, 512) <= 1;
    RunsOutIff(m, root, r, n);
  }

  lemma BlockInTheWay(t: Tables, m: Memory, n: nat)
    requires t.Valid() && Updated(m, t.mem, t.root, Region(0, 512, 0, {}))
    ensures forall o | Ends(t.mem, t.root, Region(5, 6, 95, {}), n, o) :: o.StrayWrite?
  {
    var r, x: nat := Region(5, 6, 95, {}), 5;
    assert Tree(t.mem, t.root, t.at);
    hide Tables.Valid, Tree, Conflicts, Walk;
    assert Walk(t.mem, t.root, x) == Update(Region(0, 512, 0, {}), Walk(m, t.root, x), x);
    assert Splits(t.mem, t.root, r, x);
    ConflictsIff(t.mem, t.root, t.at, r);
    assert exists y: nat :: Conflict(t.mem, t.root, r, y);
    var y: nat :| Conflict(t.mem, t.root, r, y);
    ConflictFirst(t.mem, t.root, r, n, y);
  }

  // ---------------------------------------------------------------------------------
  // Pages not mapped yet

  ghost predicate Unmapped(m: Memory, root: nat, r: Region) {
    forall x: nat | x < PAGES && r.Holds(x) :: Walk(m, root, x).Fault?
  }

  /** On pages not yet mapped no block is ever taken for a table. */
  lemma UnmappedNoConflict(m: Memory, root: nat, r: Region)
    requires Unmapped(m, root, r)
    ensures !Conflicts(m, root, r)
  {
    forall x: nat ensures !Conflict(m, root, r, x) {
      if x < PAGES && r.Holds(x) {
        assert Walk(m, root, x).Fault?;
      }
    }
  }

  /** The blocks that map r stand over empty descriptors. */
  ghost predicate OverEmpty(m: Memory, root: nat, r: Region) {
    forall x: nat | x < PAGES && r.Holds(x) && r.ByBlock(x) :: Level2(m, root, x) == EMPTY
  }

  /** On pages not yet mapped a new block never replaces a table, nor another block. */
  lemma UnmappedOverEmpty(m: Memory, root: nat, at: map<nat, Place>, r: Region)
    requires Tree(m, root, at) && Live(m, root) && Unmapped(m, root, r) && r.end <= PAGES
    ensures OverEmpty(m, root, r)
  {
    forall x: nat | x < PAGES && r.Holds(x) && r.ByBlock(x) ensures Level2(m, root, x) == EMPTY {
      var e1, e2 := Entry(m, root, I(x)), Level2(m, root, x);
      assert Walk(m, root, x).Fault?;
      if IsTable(e2) {
        assert MapsNear(m, root, x);
        var y: nat :| y < PAGES && y / 512 == x / 512 && Walk(m, root, y).Mapped?;
        assert r.Holds(y);
      }
      assert e1 != EMPTY ==> PointsTo(m, at, e1, Second(I(x)));
    }
  }

  // ---------------------------------------------------------------------------------
  // Runs

  /** Regions inside the table that share no page. */
  ghost predicate Disjoint(rs: seq<Region>) {
    && (forall i | 0 <= i < |rs| :: rs[i].first < rs[i].end <= PAGES && rs[i].first + rs[i].d >= 0)
    && (forall i, j | 0 <= i < j < |rs| :: rs[i].end <= rs[j].first || rs[j].end <= rs[i].first)
  }

  function SumTables(rs: seq<Region>, k: nat): (n: nat)
    requires k <= |rs| && Disjoint(rs)
  {
    if k == 0 then 0 else SumTables(rs, k - 1) + TablesFor(rs[k - 1].first, rs[k - 1].end)
  }

  lemma {:induction false} SumGrows(rs: seq<Region>, k: nat, n: nat)
    requires k <= n <= |rs| && Disjoint(rs)
    ensures SumTables(rs, k) <= SumTables(rs, n)
  {
    hide TablesFor;
    if k < n {
      SumGrows(rs, k, n - 1);
    }
  }

  /** The tables that the first k calls take, from the tables ms before each. */
  ghost function SumNeed(ms: seq<Memory>, root: nat, rs: seq<Region>, k: nat): (n: nat)
    requires k <= |rs| && k <= |ms|
  {
    if k == 0 then 0 else SumNeed(ms, root, rs, k - 1) + Need(ms[k - 1], root, rs[k - 1], rs[k - 1].end)
  }

  lemma {:induction false} SumPrefix(ms: seq<Memory>, ns: seq<Memory>, root: nat, rs: seq<Region>, k: nat)
    requires k <= |rs| && k <= |ms| && ms <= ns
    ensures SumNeed(ms, root, rs, k) == SumNeed(ns, root, rs, k)
  {
    if k > 0 {
      SumPrefix(ms, ns, root, rs, k - 1);
    }
  }

  lemma {:induction false} SumBound(ms: seq<Memory>, root: nat, rs: seq<Region>, k: nat)
    requires k <= |rs| && k <= |ms| && Disjoint(rs)
    ensures SumNeed(ms, root, rs, k) <= SumTables(rs, k)
  {
    hide TablesFor, Need;
    if k > 0 {
      SumBound(ms, root, rs, k - 1);
      NeedBound(ms[k - 1], root, rs[k - 1], rs[k - 1].end);
    }
  }

  /** A region in 2 MiB in which a page is mapped by a page descriptor already takes no table. */
  lemma NearNeedsNone(m: Memory, root: nat, at: map<nat, Place>, r: Region, y: nat)
    requires Tree(m, root, at) && r.first < r.end <= PAGES && r.end <= r.first / 512 * 512 + 512
    requires y < PAGES && y / 512 == r.first / 512 && Walk(m, root, y).Mapped? && !Walk(m, root, y).block
    ensures Need(m, root, r, r.end) == 0
  {
    NeedChunk(m, root, r, r.first, r.end);
    SameSecond(m, root, y);
    Decompose(y);
    Decompose(r.first);
  }

  /** Page x is in none of the first k regions. */
  ghost predicate Outside(rs: seq<Region>, k: nat, x: nat)
    requires k <= |rs|
  {
    forall i | 0 <= i < k :: !rs[i].Holds(x)
  }

  /** Since the tables were m0, exactly the first k regions have been mapped, as asked for. */
  ghost predicate MappedSoFar(m0: Memory, m: Memory, root: nat, rs: seq<Region>, k: nat) {
    && Disjoint(rs) && k <= |rs|
    && (forall i, x: nat | 0 <= i < k && x < PAGES && rs[i].Holds(x) ::
          Walk(m, root, x) == Mapped(x + rs[i].d, Attr(rs[i].flags), rs[i].ByBlock(x)))
    && (forall x: nat | x < PAGES && Outside(rs, k, x) :: Walk(m, root, x) == Walk(m0, root, x))
  }

  /** Mapping one more region keeps all earlier translations. */
  lemma EarlierStay(m0: Memory, m: Memory, m': Memory, root: nat, rs: seq<Region>, k: nat)
    requires Disjoint(rs) && k < |rs| && MappedSoFar(m0, m, root, rs, k) && Updated(m, m', root, rs[k])
    ensures MappedSoFar(m0, m', root, rs, k + 1)
  {
    hide Walk;
    forall i, x: nat | 0 <= i < k + 1 && x < PAGES && rs[i].Holds(x)
      ensures Walk(m', root, x) == Mapped(x + rs[i].d, Attr(rs[i].flags), rs[i].ByBlock(x))
    {
      assert Walk(m', root, x) == Update(rs[k], Walk(m, root, x), x);
    }
    forall x: nat | x < PAGES && Outside(rs, k + 1, x) ensures Walk(m', root, x) == Walk(m0, root, x) {
      assert Outside(rs, k, x) && !rs[k].Holds(x);
      assert Walk(m', root, x) == Update(rs[k], Walk(m, root, x), x);
    }
  }

  lemma NextUnmapped(m0: Memory, m: Memory, root: nat, rs: seq<Region>, k: nat)
    requires Disjoint(rs) && k < |rs| && MappedSoFar(m0, m, root, rs, k) && Unmapped(m0, root, rs[k])
    ensures Unmapped(m, root, rs[k])
  {
    hide Walk;
    forall x: nat | x < PAGES && rs[k].Holds(x) ensures Walk(m, root, x).Fault? {
      assert Outside(rs, k, x);
    }
  }

  /** ms are the tables before each call and after the last: earlier translations stay, and no block
      replaces a table or a block. */
  ghost predicate History(ms: seq<Memory>, root: nat, rs: seq<Region>) {
    && 0 < |ms| <= |rs| + 1 && (forall i | 0 <= i < |ms| :: MappedSoFar(ms[0], ms[i], root, rs, i))
    && (forall i | 0 <= i < |ms| - 1 :: OverEmpty(ms[i], root, rs[i]))
  }

  lemma Longer(ms: seq<Memory>, m: Memory, root: nat, rs: seq<Region>)
    requires History(ms, root, rs) && |ms| <= |rs| && MappedSoFar(ms[0], m, root, rs, |ms|)
    requires OverEmpty(ms[|ms| - 1], root, rs[|ms| - 1])
    ensures History(ms + [m], root, rs)
  {
    hide MappedSoFar, OverEmpty;
  }

  /** pt_map for a region with no page mapped before. */
  method MapUnmapped(t: Tables, r: Region) returns (o: Outcome)
    requires t.Valid() && r.first < r.end <= PAGES && r.first + r.d >= 0 && Unmapped(t.mem, t.root, r)
    modifies t`mem, t`pool, t`at
    ensures !o.StrayWrite? && (o.OutOfMemory? <==> |old(t.pool)| < Need(old(t.mem), t.root, r, r.end))
    ensures o.Done? ==> |old(t.pool)| == |t.pool| + Need(old(t.mem), t.root, r, r.end)
    ensures OverEmpty(old(t.mem), t.root, r)
    ensures o.Done? ==> t.Valid() && Updated(old(t.mem), t.mem, t.root, r)
  {
    hide Tables.Valid, Unmapped, OverEmpty, Updated, Conflicts, Need, RunsOut;
    FreshRegion(t, r);
    RunsOutIff(t.mem, t.root, r, |t.pool|);
    o := t.MapPages(r.first, r.end - r.first, r.first + r.d, r.flags);
  }

  /** pt_map for region k, after the regions before it. */
  method MapNext(t: Tables, rs: seq<Region>, ghost m0: Memory, k: nat) returns (o: Outcome)
    requires t.Valid() && k < |rs| && Disjoint(rs) && MappedSoFar(m0, t.mem, t.root, rs, k)
    requires Unmapped(m0, t.root, rs[k])
    modifies t`mem, t`pool, t`at
    ensures !o.StrayWrite? && (o.OutOfMemory? <==> |old(t.pool)| < Need(old(t.mem), t.root, rs[k], rs[k].end))
    ensures o.Done? ==> |old(t.pool)| == |t.pool| + Need(old(t.mem), t.root, rs[k], rs[k].end)
    ensures OverEmpty(old(t.mem), t.root, rs[k])
    ensures o.Done? ==> t.Valid() && MappedSoFar(m0, t.mem, t.root, rs, k + 1)
  {
    var r := rs[k];
    assert r.first < r.end <= PAGES && r.first + r.d >= 0;
    hide Tables.Valid, Disjoint, MappedSoFar, Unmapped, OverEmpty, Updated, Need;
    NextUnmapped(m0, t.mem, t.root, rs, k);
    o := MapUnmapped(t, r);
    if o.Done? {
      EarlierStay(m0, old(t.mem), t.mem, t.root, rs, k);
    }
  }

  /** A call of pt_map for each region, on pages not mapped before: no call takes a block for a
      table, no block replaces a table or a block, all earlier translations stay, and every call
      succeeds exactly as long as there are pages for the tables it takes. */
  method MapAll(t: Tables, rs: seq<Region>) returns (o: Outcome, k: nat, ghost ms: seq<Memory>)
    requires t.Valid() && Disjoint(rs) && forall i | 0 <= i < |rs| :: Unmapped(t.mem, t.root, rs[i])
    modifies t`mem, t`pool, t`at
    ensures |ms| == k + 1 && ms[0] == old(t.mem) && History(ms, t.root, rs)
    ensures !o.StrayWrite? && (o.Done? ==> t.Valid() && k == |rs| && ms[k] == t.mem)
    ensures o.Done? ==> |old(t.pool)| == |t.pool| + SumNeed(ms, t.root, rs, |rs|)
    ensures o.OutOfMemory? ==> k < |rs| && SumNeed(ms, t.root, rs, k) <= |old(t.pool)| < SumNeed(ms, t.root, rs, k + 1)
    ensures |old(t.pool)| >= SumTables(rs, |rs|) ==> o.Done?
  {
    hide Tables.Valid, History, MappedSoFar, Unmapped, OverEmpty, Need, TablesFor, Disjoint;
    StartHistory(t.mem, t.root, rs);
    k, ms, o := 0, [t.mem], Done;
    while k < |rs|
      invariant k <= |rs| && o.Done? && t.Valid() && |ms| == k + 1 && ms[0] == old(t.mem) && ms[k] == t.mem
      invariant History(ms, t.root, rs)
      invariant |old(t.pool)| == |t.pool| + SumNeed(ms, t.root, rs, k)
    {
      SumGrows(rs, k + 1, |rs|);
      SumBound(ms, t.root, rs, k + 1);
      LastSoFar(ms, t.root, rs);
      o := MapNext(t, rs, ms[0], k);
      if !o.Done? {
        return;
      }
      Longer(ms, t.mem, t.root, rs);
      SumPrefix(ms, ms + [t.mem], t.root, rs, k + 1);
      ms, k := ms + [t.mem], k + 1;
    }
  }

  lemma StartHistory(m: Memory, root: nat, rs: seq<Region>)
    requires Disjoint(rs)
    ensures History([m], root, rs)
  {
  }

  lemma LastSoFar(ms: seq<Memory>, root: nat, rs: seq<Region>)
    requires History(ms, root, rs)
    ensures MappedSoFar(ms[0], ms[|ms| - 1], root, rs, |ms| - 1)
  {
  }

  lemma FreshRegion(t: Tables, r: Region)
    requires t.Valid() && Unmapped(t.mem, t.root, r) && r.end <= PAGES
    ensures !Conflicts(t.mem, t.root, r) && OverEmpty(t.mem, t.root, r)
  {
    UnmappedNoConflict(t.mem, t.root, r);
    UnmappedOverEmpty(t.mem, t.root, t.at, r);
  }
}
