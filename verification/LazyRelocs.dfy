/** Deferred PLT and GOT relocations: the lazy table of a library, filled by do_relocs and replayed
    in place by do_relocs when more libraries have been loaded. */
module LazyRelocs {
  const WORD := 0x1_0000_0000_0000_0000
  const SYMBOLIC := 257
  const GOT := 1025
  const PLT := 1026

  datatype Bind = Local | Weak | Global

  /** An entry of a library's symbol table; undefined is st_shndx == SHN_UNDEF. */
  datatype Sym = Sym(name: string, bind: Bind, undefined: bool, value: nat)

  datatype Key = Key(name: string, needDef: bool)

  /** Where find_sym finds a definition, by name and need_def, in the global symbol list. */
  type Scope = map<Key, nat>

  datatype Rel = Rel(offset: nat, info: nat, addend: nat) {
    function Type(): (t: nat) {
      info % 0x8000_0000
    }

    function SymIndex(): (i: nat) {
      info / 0x1_0000_0000
    }
  }

  datatype Lib = Lib(base: nat, syms: seq<Sym>) {
    function Address(v: nat): (a: nat) {
      (base + v) % WORD
    }

    /** Relocations that store symbol value plus addend, with symbols from the table. */
    predicate Handles(e: Rel) {
      e.Type() in {SYMBOLIC, GOT, PLT} && e.SymIndex() < |syms|
    }
  }

  datatype Resolution = Value(address: nat) | Missing

  /** The symbol value of entry e, or Missing when the symbol must be found and is not. */
  function Resolve(l: Lib, scope: Scope, e: Rel): (r: Resolution)
    requires l.Handles(e)
  {
    if e.SymIndex() == 0 then Value(0)
    else
      var sym := l.syms[e.SymIndex()];
      var key := Key(sym.name, e.Type() == PLT);
      if sym.bind == Local then Value(l.Address(sym.value))
      else if key in scope then Value(scope[key])
      else if sym.undefined && sym.bind == Weak then Value(0)
      else Missing
  }

  predicate Deferrable(e: Rel) {
    e.Type() == PLT || e.Type() == GOT
  }

  type Memory = map<nat, nat>

  /** What processing e does to memory: the resolved value plus the addend, or nothing. */
  function Store(l: Lib, scope: Scope, e: Rel, mem: Memory): (m: Memory)
    requires l.Handles(e)
  {
    match Resolve(l, scope, e)
    case Value(v) => mem[l.Address(e.offset) := (v + e.addend) % WORD]
    case Missing => mem
  }

  ghost predicate AllHandled(l: Lib, es: seq<Rel>) {
    forall i | 0 <= i < |es| :: l.Handles(es[i])
  }

  /** Processing the first k of the entries es. */
  function StoreAll(l: Lib, scope: Scope, es: seq<Rel>, k: nat, mem: Memory): (m: Memory)
    requires AllHandled(l, es) && k <= |es|
  {
    if k == 0 then mem else Store(l, scope, es[k - 1], StoreAll(l, scope, es, k - 1, mem))
  }

  /** kept, and after it those of the first k entries to be tried again later: unresolved, and of a
      kind that may wait. */
  function Deferred(l: Lib, scope: Scope, es: seq<Rel>, k: nat, canWait: bool, kept: seq<Rel>): (r: seq<Rel>)
    requires AllHandled(l, es) && k <= |es|
  {
    if k == 0 then kept else Deferred(l, scope, es, k - 1, canWait, kept) + Kept(l, scope, es[k - 1], canWait)
  }

  function Kept(l: Lib, scope: Scope, e: Rel, canWait: bool): (r: seq<Rel>)
    requires l.Handles(e)
  {
    if canWait && Resolve(l, scope, e).Missing? && Deferrable(e) then [e] else []
  }

  /** e is an error when its symbol is missing and it cannot wait. */
  predicate Fails(l: Lib, scope: Scope, e: Rel, canWait: bool)
    requires l.Handles(e)
  {
    Resolve(l, scope, e).Missing? && !(canWait && Deferrable(e))
  }

  /** With runtime set, processing stops at the first failure; else it goes through. */
  ghost predicate StopsAt(l: Lib, scope: Scope, es: seq<Rel>, done: nat, runtime: bool, canWait: bool) {
    && AllHandled(l, es) && done <= |es|
    && (done < |es| ==> runtime && Fails(l, scope, es[done], canWait))
    && (runtime ==> forall i | 0 <= i < done :: !Fails(l, scope, es[i], canWait))
  }

  /** No failure among the first k entries stops processing. */
  ghost predicate Passes(l: Lib, scope: Scope, es: seq<Rel>, k: nat, runtime: bool, canWait: bool) {
    && AllHandled(l, es) && k <= |es|
    && (runtime ==> forall i | 0 <= i < k :: !Fails(l, scope, es[i], canWait))
  }

  // ---------------------------------------------------------------------------------
  // Tables of three words an entry

  function EntryAt(words: array<nat>, i: nat): (e: Rel)
    requires 3 * i + 3 <= words.Length
    reads words
  {
    Rel(words[3 * i], words[3 * i + 1], words[3 * i + 2])
  }

  /** From entry k on, the table holds the entries es. */
  ghost predicate Holds(words: array<nat>, k: nat, es: seq<Rel>)
    reads words
  {
    3 * |es| <= words.Length && forall i: nat | k <= i < |es| :: EntryAt(words, i) == es[i]
  }

  /** A library; lazy is the table of deferred relocations, there while waits is set. */
  class Dso {
    const l: Lib
    const lazy: array<nat>
    var waits: bool
    var lazyCnt: nat

    /** The lazy table holds exactly these entries. */
    ghost predicate Keeps(es: seq<Rel>)
      reads this, lazy
    {
      lazyCnt == |es| && Holds(lazy, 0, es)
    }

    /** Entry k of rel can be saved: the lazy table has room, and if it is rel itself, its write
        index has not passed k. */
    ghost predicate Room(rel: array<nat>, k: nat, n: nat)
      reads this
    {
      && k <= n && 3 * n <= rel.Length
      && (waits ==> if rel == lazy then lazyCnt <= k else 3 * (lazyCnt + n - k) <= lazy.Length)
    }

    /** Saving entry k of rel, which may be the lazy table itself, at the end of the lazy table. */
    method Defer(rel: array<nat>, k: nat, addend: nat, ghost es: seq<Rel>)
      requires 3 * k + 3 <= rel.Length && addend == rel[3 * k + 2]
      requires 3 * lazyCnt + 3 <= lazy.Length && (rel == lazy ==> lazyCnt <= k) && Keeps(es)
      modifies this`lazyCnt, lazy
      ensures lazyCnt == old(lazyCnt) + 1
      ensures Keeps(es + [old(EntryAt(rel, k))])
      ensures forall i: nat | old(lazyCnt) < i && 3 * i + 3 <= lazy.Length :: EntryAt(lazy, i) == old(EntryAt(lazy, i))
    {
      lazy[3 * lazyCnt] := rel[3 * k];
      lazy[3 * lazyCnt + 1] := rel[3 * k + 1];
      lazy[3 * lazyCnt + 2] := addend;
      lazyCnt := lazyCnt + 1;
      assert forall i: nat | i < |es| :: EntryAt(lazy, i) == old(EntryAt(lazy, i));
    }

    /** One turn of do_relocs, on entry k of rel; es are the entries of rel, kept those in the lazy table. */
    method Relocate(rel: array<nat>, k: nat, scope: Scope, mem: Memory, ghost es: seq<Rel>, ghost kept: seq<Rel>)
      returns (m: Memory, failed: bool)
      requires k < |es| && Room(rel, k, |es|) && Holds(rel, k, es) && l.Handles(es[k]) && Keeps(kept)
      modifies this`lazyCnt, lazy
      ensures Room(rel, k + 1, |es|) && Holds(rel, k + 1, es)
      ensures failed == Fails(l, scope, es[k], waits) && m == Store(l, scope, es[k], mem)
      ensures Keeps(kept + Kept(l, scope, es[k], waits)) && (failed ==> Keeps(kept))
    {
      var e := EntryAt(rel, k);
      m, failed := mem, false;
      match Resolve(l, scope, e)
      case Value(v) => m := mem[l.Address(e.offset) := (v + e.addend) % WORD];
      case Missing =>
        if waits && Deferrable(e) {
          Defer(rel, k, e.addend, kept);
        } else {
          failed := true;
        }
    }

    /** do_relocs over the entries es of rel, up to the first failure when runtime is set. */
    method DoRelocs(rel: array<nat>, n: nat, scope: Scope, runtime: bool, mem: Memory, ghost es: seq<Rel>,
                    ghost kept: seq<Rel>)
      returns (m: Memory, done: nat)
      requires |es| == n && Room(rel, 0, n) && Holds(rel, 0, es) && AllHandled(l, es) && Keeps(kept)
      modifies this`lazyCnt, lazy
      ensures StopsAt(l, scope, es, done, runtime, waits)
      ensures m == StoreAll(l, scope, es, done, mem)
      ensures Keeps(Deferred(l, scope, es, done, waits, kept))
    {
      hide Room, Holds, Keeps, Store, Kept, Fails, Lib.Handles;
      var k, cur := 0, mem;
      while k < n
        invariant k <= n && Room(rel, k, n) && Holds(rel, k, es) && Passes(l, scope, es, k, runtime, waits)
        invariant cur == StoreAll(l, scope, es, k, mem) && Keeps(Deferred(l, scope, es, k, waits, kept))
      {
        var after, failed := Relocate(rel, k, scope, cur, es, Deferred(l, scope, es, k, waits, kept));
        if failed && runtime {
          return cur, k;
        }
        cur, k := after, k + 1;
      }
      return cur, n;
    }
  }

  // ---------------------------------------------------------------------------------
  // The list of libraries with deferred relocations

  /** What is left of the table es of library p. */
  ghost function Left(p: Dso, scope: Scope, es: seq<Rel>): (d: seq<Rel>)
    requires AllHandled(p.l, es)
  {
    Deferred(p.l, scope, es, |es|, true, [])
  }

  ghost predicate Tables(ps: seq<Dso>, tables: seq<seq<Rel>>) {
    |tables| == |ps| && forall i | 0 <= i < |ps| :: AllHandled(ps[i].l, tables[i])
  }

  /** The new list after the first k libraries: those with entries left, the last one first. */
  ghost function NewList(ps: seq<Dso>, tables: seq<seq<Rel>>, scope: Scope, k: nat): (r: seq<Dso>)
    requires Tables(ps, tables) && k <= |ps|
  {
    if k == 0 then []
    else (if Left(ps[k - 1], scope, tables[k - 1]) != [] then [ps[k - 1]] else []) + NewList(ps, tables, scope, k - 1)
  }

  /** Memory after the tables of the first k libraries. */
  ghost function StoreTables(ps: seq<Dso>, tables: seq<seq<Rel>>, scope: Scope, k: nat, mem: Memory): (m: Memory)
    requires Tables(ps, tables) && k <= |ps|
  {
    if k == 0 then mem
    else StoreAll(ps[k - 1].l, scope, tables[k - 1], |tables[k - 1]|, StoreTables(ps, tables, scope, k - 1, mem))
  }

  /** Those of the first k of xs that has marks, the last one first. */
  ghost function Backwards<T>(xs: seq<T>, has: seq<bool>, k: nat): (r: seq<T>)
    requires k <= |xs| == |has|
  {
    if k == 0 then [] else (if has[k - 1] then [xs[k - 1]] else []) + Backwards(xs, has, k - 1)
  }

  ghost function Numbers(n: nat): (r: seq<nat>)
    ensures |r| == n && forall i | 0 <= i < n :: r[i] == i
  {
    seq(n, i requires 0 <= i < n => i)
  }

  lemma {:induction false} BackwardsIs<T>(xs: seq<T>, has: seq<bool>, k: nat)
    requires k <= |xs| == |has|
    ensures var r, at := Backwards(xs, has, k), Backwards(Numbers(|xs|), has, k);
            && |at| == |r| && (forall a | 0 <= a < |r| :: 0 <= at[a] < k && r[a] == xs[at[a]])
            && (forall a, b | 0 <= a < b < |at| :: at[a] > at[b])
            && (forall i: nat | i < k :: i in at <==> has[i])
  {
    if k > 0 {
      BackwardsIs(xs, has, k - 1);
    }
  }

  ghost function Unfinished(ps: seq<Dso>, tables: seq<seq<Rel>>, scope: Scope): (has: seq<bool>)
    requires Tables(ps, tables)
    ensures |has| == |ps|
  {
    seq(|ps|, i requires 0 <= i < |ps| => Left(ps[i], scope, tables[i]) != [])
  }

  /** The new list holds the libraries with entries left, the later ones of the old list first. */
  lemma {:induction false} NewListIs(ps: seq<Dso>, tables: seq<seq<Rel>>, scope: Scope, k: nat)
    requires Tables(ps, tables) && k <= |ps|
    ensures NewList(ps, tables, scope, k) == Backwards(ps, Unfinished(ps, tables, scope), k)
  {
    hide Left;
    if k > 0 {
      NewListIs(ps, tables, scope, k - 1);
    }
  }

  /** No other entry of any library stores where entry i of library a does. */
  ghost predicate Alone(ps: seq<Dso>, tables: seq<seq<Rel>>, a: nat, i: nat)
    requires Tables(ps, tables) && a < |ps| && i < |tables[a]|
  {
    forall b, j | 0 <= b < |ps| && 0 <= j < |tables[b]| && (b != a || j != i) ::
      ps[b].l.Address(tables[b][j].offset) != ps[a].l.Address(tables[a][i].offset)
  }

  /** Every entry of every library has stored its value, or nothing when its symbol is missing. */
  lemma {:induction false} AllStored(ps: seq<Dso>, tables: seq<seq<Rel>>, scope: Scope, k: nat, mem: Memory, a: nat,
                                     i: nat)
    requires Tables(ps, tables) && a < |ps| && i < |tables[a]| && Alone(ps, tables, a, i) && k <= |ps|
    requires forall b | 0 <= b < |ps| :: Distinct(ps[b].l, tables[b])
    ensures var l, e, m := ps[a].l, tables[a][i], StoreTables(ps, tables, scope, k, mem);
            if a < k then Shown(l, Resolve(l, scope, e), e, mem, m) else Agree(m, mem, l.Address(e.offset))
  {
    if k > 0 {
      AllStored(ps, tables, scope, k - 1, mem, a, i);
      var l, es, at := ps[k - 1].l, tables[k - 1], ps[a].l.Address(tables[a][i].offset);
      var m := StoreTables(ps, tables, scope, k - 1, mem);
      if a == k - 1 {
        StoredValues(l, scope, es, |es|, m, i);
      } else {
        assert Apart(l, es, |es|, at);
        Untouched(l, scope, es, |es|, m, at);
      }
    }
  }

  /** p still has its table es, all of whose entries may wait. */
  ghost predicate Pending(p: Dso, es: seq<Rel>)
    reads p, p.lazy
  {
    p.waits && p.Keeps(es) && AllHandled(p.l, es) && forall e | e in es :: Deferrable(e)
  }

  /** p keeps exactly the entries left, and no table when none is. */
  ghost predicate Redone(p: Dso, scope: Scope, es: seq<Rel>)
    reads p, p.lazy
  {
    AllHandled(p.l, es) && p.Keeps(Left(p, scope, es)) && (p.waits <==> Left(p, scope, es) != [])
  }

  lemma AllMayWait(l: Lib, scope: Scope, es: seq<Rel>, done: nat, runtime: bool)
    requires StopsAt(l, scope, es, done, runtime, true) && forall e | e in es :: Deferrable(e)
    ensures done == |es|
  {
    forall i | 0 <= i < |es| ensures !Fails(l, scope, es[i], true) {
      assert es[i] in es;
    }
  }

  /** redo_lazy_relocs on one library: the table is replayed in place, and dropped when it is empty. */
  method Redo(p: Dso, scope: Scope, runtime: bool, mem: Memory, ghost es: seq<Rel>) returns (m: Memory)
    requires Pending(p, es)
    modifies p`lazyCnt, p`waits, p.lazy
    ensures Redone(p, scope, es) && (p.waits <==> Left(p, scope, es) != [])
    ensures m == StoreAll(p.l, scope, es, |es|, mem)
  {
    hide StopsAt, StoreAll, Deferred, Deferrable, AllHandled;
    var n, done := p.lazyCnt, 0;
    p.lazyCnt := 0;
    m, done := p.DoRelocs(p.lazy, n, scope, runtime, mem, es, []);
    AllMayWait(p.l, scope, es, done, runtime);
    if p.lazyCnt == 0 {
      p.waits := false;
    }
  }

  ghost predicate Separate(ps: seq<Dso>) {
    forall i, j | 0 <= i < j < |ps| :: ps[i] != ps[j] && ps[i].lazy != ps[j].lazy
  }

  /** The first k libraries are done, the others untouched. */
  ghost predicate RedoneTo(ps: seq<Dso>, tables: seq<seq<Rel>>, scope: Scope, k: nat)
    reads ps, set p <- ps :: p.lazy
  {
    && |tables| == |ps| && (forall i | 0 <= i < k && i < |ps| :: Redone(ps[i], scope, tables[i]))
    && (forall i | k <= i < |ps| :: Pending(ps[i], tables[i]))
  }

  /** One turn of redo_lazy_relocs, for library k. */
  method RedoNext(ghost ps: seq<Dso>, ghost k: nat, p: Dso, scope: Scope, runtime: bool, mem: Memory,
                  ghost tables: seq<seq<Rel>>)
    returns (m: Memory)
    requires Tables(ps, tables) && Separate(ps) && k < |ps| && p == ps[k] && RedoneTo(ps, tables, scope, k)
    modifies p`lazyCnt, p`waits, p.lazy
    ensures RedoneTo(ps, tables, scope, k + 1) && (p.waits <==> Left(p, scope, tables[k]) != [])
    ensures m == StoreAll(p.l, scope, tables[k], |tables[k]|, mem)
  {
    hide Pending, Redone, Left, StoreAll, AllHandled;
    m := Redo(p, scope, runtime, mem, tables[k]);
  }

  /** redo_lazy_relocs: ps is the list from lazy_head, head the list it leaves. */
  method RedoLazyRelocs(ps: seq<Dso>, scope: Scope, runtime: bool, mem: Memory, ghost tables: seq<seq<Rel>>)
    returns (m: Memory, head: seq<Dso>)
    requires Tables(ps, tables) && Separate(ps) && RedoneTo(ps, tables, scope, 0)
    modifies ps, set p <- ps :: p.lazy
    ensures RedoneTo(ps, tables, scope, |ps|)
    ensures m == StoreTables(ps, tables, scope, |ps|, mem) && head == NewList(ps, tables, scope, |ps|)
  {
    hide RedoneTo, Separate, Left, StoreAll, AllHandled;
    m, head := mem, [];
    for k := 0 to |ps|
      invariant RedoneTo(ps, tables, scope, k)
      invariant m == StoreTables(ps, tables, scope, k, mem) && head == NewList(ps, tables, scope, k)
    {
      m := RedoNext(ps, k, ps[k], scope, runtime, m, tables);
      if ps[k].waits {
        head := [ps[k]] + head;
      }
    }
  }

  // ---------------------------------------------------------------------------------
  // Replay is eager processing with the later symbols

  ghost predicate Distinct(l: Lib, es: seq<Rel>) {
    forall i, j | 0 <= i < j < |es| :: l.Address(es[i].offset) != l.Address(es[j].offset)
  }

  /** The first k entries store elsewhere than at a. */
  ghost predicate Apart(l: Lib, es: seq<Rel>, k: nat, a: int) {
    k <= |es| && forall j | 0 <= j < k :: l.Address(es[j].offset) != a
  }

  /** Two memories hold the same at a. */
  ghost predicate Agree(x: Memory, y: Memory, a: nat) {
    (a in x <==> a in y) && (a in x ==> x[a] == y[a])
  }

  /** m holds the value r of e at its address, or what mem holds there when there is none. */
  ghost predicate Shown(l: Lib, r: Resolution, e: Rel, mem: Memory, m: Memory) {
    var at := l.Address(e.offset);
    match r
    case Value(v) => at in m && m[at] == (v + e.addend) % WORD
    case Missing => Agree(m, mem, at)
  }

  /** How the symbol of e is found, from the table words alone: no symbol, a symbol of the library itself, a
      definition in the list, an optional one, or none. */
  lemma ResolveCases(l: Lib, scope: Scope, e: Rel)
    requires l.Handles(e)
    ensures e.info % 0x8000_0000 in {257, 1025, 1026} && e.info / 0x1_0000_0000 < |l.syms|
    ensures var i := e.info / 0x1_0000_0000;
            var sym := l.syms[i];
            var key := Key(sym.name, e.info % 0x8000_0000 == 1026);
            Resolve(l, scope, e) ==
            if i == 0 then Value(0)
            else if sym.bind == Local then Value((l.base + sym.value) % WORD)
            else if key in scope then Value(scope[key])
            else if sym.bind == Weak && sym.undefined then Value(0)
            else Missing
  {
  }

  /** Entry i has stored its value at its place, base plus offset, or nothing when its symbol is missing. */
  lemma StoredAt(l: Lib, scope: Scope, es: seq<Rel>, mem: Memory, i: nat)
    requires AllHandled(l, es) && Distinct(l, es) && i < |es|
    ensures var m, at := StoreAll(l, scope, es, |es|, mem), (l.base + es[i].offset) % WORD;
            match Resolve(l, scope, es[i])
            case Value(v) => at in m && m[at] == (v + es[i].addend) % WORD
            case Missing => (at in m <==> at in mem) && (at in m ==> m[at] == mem[at])
  {
    StoredValues(l, scope, es, |es|, mem, i);
  }

  /** Nothing else is stored. */
  lemma StoredNowhereElse(l: Lib, scope: Scope, es: seq<Rel>, mem: Memory, a: nat)
    requires AllHandled(l, es) && forall i | 0 <= i < |es| :: (l.base + es[i].offset) % WORD != a
    ensures var m := StoreAll(l, scope, es, |es|, mem); (a in m <==> a in mem) && (a in m ==> m[a] == mem[a])
  {
    Untouched(l, scope, es, |es|, mem, a);
  }

  /** The symbol of e is looked up and missing. */
  predicate Unfound(l: Lib, scope: Scope, e: Rel)
    requires l.Handles(e)
  {
    e.info / 0x1_0000_0000 != 0 &&
    var sym := l.syms[e.info / 0x1_0000_0000];
    && sym.bind != Local && Key(sym.name, e.info % 0x8000_0000 == 1026) !in scope
    && !(sym.bind == Weak && sym.undefined)
  }

  /** Where do_relocs stops: at run time at the first entry whose symbol is missing and that cannot wait, else
      at the end. */
  lemma StopsIff(l: Lib, scope: Scope, es: seq<Rel>, done: nat, runtime: bool, canWait: bool)
    requires AllHandled(l, es) && done <= |es|
    ensures StopsAt(l, scope, es, done, runtime, canWait) <==>
            && (done == |es| ||
                (runtime && Unfound(l, scope, es[done]) && !(canWait && es[done].info % 0x8000_0000 in {1025, 1026})))
            && (runtime ==> forall i | 0 <= i < done ::
                  Unfound(l, scope, es[i]) ==> canWait && es[i].info % 0x8000_0000 in {1025, 1026})
  {
    forall i | 0 <= i < |es| ensures Unfound(l, scope, es[i]) <==> Resolve(l, scope, es[i]).Missing? {
      ResolveCases(l, scope, es[i]);
    }
  }

  /** Without a lazy table nothing is saved. */
  lemma {:induction false} NoneSaved(l: Lib, scope: Scope, es: seq<Rel>, k: nat, kept: seq<Rel>)
    requires AllHandled(l, es) && k <= |es|
    ensures Deferred(l, scope, es, k, false, kept) == kept
  {
    if k > 0 {
      NoneSaved(l, scope, es, k - 1, kept);
    }
  }

  /** An entry is left exactly when it is a PLT or GOT entry whose symbol is missing. */
  lemma LeftCases(l: Lib, scope: Scope, es: seq<Rel>, e: Rel)
    requires AllHandled(l, es) && e in es
    ensures e in Deferred(l, scope, es, |es|, true, []) <==>
            e.info % 0x8000_0000 in {1025, 1026} && Unfound(l, scope, e)
  {
    DeferredFrom(l, scope, es, |es|);
    assert es[..|es|] == es && l.Handles(e);
    ResolveCases(l, scope, e);
    hide Deferred, Resolve, Lib.Handles, AllHandled;
  }

  /** Each resolved entry has stored its value, and an unresolved one nothing. */
  lemma {:induction false} StoredValues(l: Lib, scope: Scope, es: seq<Rel>, k: nat, mem: Memory, i: nat)
    requires AllHandled(l, es) && Distinct(l, es) && i < k <= |es|
    ensures Shown(l, Resolve(l, scope, es[i]), es[i], mem, StoreAll(l, scope, es, k, mem))
  {
    if i < k - 1 {
      StoredValues(l, scope, es, k - 1, mem, i);
    } else {
      Untouched(l, scope, es, k - 1, mem, l.Address(es[i].offset));
    }
  }

  /** No other address changes. */
  lemma {:induction false} Untouched(l: Lib, scope: Scope, es: seq<Rel>, k: nat, mem: Memory, a: nat)
    requires AllHandled(l, es) && Apart(l, es, k, a)
    ensures Agree(StoreAll(l, scope, es, k, mem), mem, a)
  {
    if k > 0 {
      Untouched(l, scope, es, k - 1, mem, a);
    }
  }

  /** The entries left are exactly the entries of the table that are unresolved and may wait. */
  lemma {:induction false} DeferredFrom(l: Lib, scope: Scope, es: seq<Rel>, k: nat)
    requires AllHandled(l, es) && k <= |es|
    ensures var d := Deferred(l, scope, es, k, true, []);
            AllHandled(l, d) && forall e :: e in d <==> e in es[..k] && Kept(l, scope, e, true) == [e]
  {
    if k > 0 {
      DeferredFrom(l, scope, es, k - 1);
      assert es[..k] == es[..k - 1] + [es[k - 1]];
    }
  }

  /** Where the entries left come from. */
  ghost function Places(l: Lib, scope: Scope, es: seq<Rel>, k: nat): (ps: seq<nat>)
    requires AllHandled(l, es) && k <= |es|
  {
    if k == 0 then [] else Places(l, scope, es, k - 1) + if Kept(l, scope, es[k - 1], true) == [] then [] else [k - 1]
  }

  /** The entries left are in the order of the table. */
  lemma {:induction false} DeferredInOrder(l: Lib, scope: Scope, es: seq<Rel>, k: nat)
    requires AllHandled(l, es) && k <= |es|
    ensures var d, ps := Deferred(l, scope, es, k, true, []), Places(l, scope, es, k);
            && |ps| == |d| && (forall a | 0 <= a < |d| :: ps[a] < k && d[a] == es[ps[a]])
            && (forall a, b | 0 <= a < b < |ps| :: ps[a] < ps[b])
  {
    if k > 0 {
      DeferredInOrder(l, scope, es, k - 1);
    }
  }

  lemma {:induction false} DeferredDistinct(l: Lib, scope: Scope, es: seq<Rel>, k: nat)
    requires AllHandled(l, es) && Distinct(l, es) && k <= |es|
    ensures Distinct(l, Deferred(l, scope, es, k, true, []))
  {
    if k > 0 {
      DeferredDistinct(l, scope, es, k - 1);
      DeferredApart(l, scope, es, k - 1);
      var c, d := Deferred(l, scope, es, k - 1, true, []), Deferred(l, scope, es, k, true, []);
      hide Deferred;
      assert Apart(l, c, |c|, l.Address(es[k - 1].offset));
      assert d == c || d == c + [es[k - 1]];
    }
  }

  /** Entries left of the first k store elsewhere than entry k. */
  lemma DeferredApart(l: Lib, scope: Scope, es: seq<Rel>, k: nat)
    requires AllHandled(l, es) && Distinct(l, es) && k < |es|
    ensures var d := Deferred(l, scope, es, k, true, []); Apart(l, d, |d|, l.Address(es[k].offset))
  {
    DeferredFrom(l, scope, es, k);
    var d := Deferred(l, scope, es, k, true, []);
    hide Deferred;
    forall j | 0 <= j < |d| ensures l.Address(d[j].offset) != l.Address(es[k].offset) {
      assert d[j] in es[..k];
    }
  }

  /** The entries that are not left store elsewhere than all entries left. */
  lemma SettledApart(l: Lib, scope: Scope, es: seq<Rel>, i: nat)
    requires AllHandled(l, es) && Distinct(l, es) && i < |es| && Kept(l, scope, es[i], true) == []
    ensures var d := Deferred(l, scope, es, |es|, true, []); Apart(l, d, |d|, l.Address(es[i].offset))
  {
    DeferredFrom(l, scope, es, |es|);
    var d := Deferred(l, scope, es, |es|, true, []);
    hide Deferred;
    forall j | 0 <= j < |d| ensures l.Address(d[j].offset) != l.Address(es[i].offset) {
      assert d[j] in d && d[j] in es[..|es|];
      var n :| 0 <= n < |es| && es[n] == d[j];
    }
  }

  lemma StillApart(l: Lib, scope: Scope, es: seq<Rel>, a: nat)
    requires AllHandled(l, es) && Apart(l, es, |es|, a)
    ensures var d := Deferred(l, scope, es, |es|, true, []); Apart(l, d, |d|, a)
  {
    DeferredFrom(l, scope, es, |es|);
    var d := Deferred(l, scope, es, |es|, true, []);
    hide Deferred;
    forall j | 0 <= j < |d| ensures l.Address(d[j].offset) != a {
      assert d[j] in d && d[j] in es[..|es|];
    }
  }

  lemma WaitsAt(l: Lib, scope: Scope, es: seq<Rel>, i: nat) returns (j: nat)
    requires AllHandled(l, es) && i < |es| && Kept(l, scope, es[i], true) != []
    ensures var d := Deferred(l, scope, es, |es|, true, []); j < |d| && d[j] == es[i]
  {
    DeferredFrom(l, scope, es, |es|);
    assert es[i] in es[..|es|];
    j :| 0 <= j < |Deferred(l, scope, es, |es|, true, [])| && Deferred(l, scope, es, |es|, true, [])[j] == es[i];
  }

  // ---------------------------------------------------------------------------------
  // Any number of replays, with any symbols

  /** One pass after the other, each over what the one before has left: memory and the entries left. */
  ghost function Passed(l: Lib, scopes: seq<Scope>, es: seq<Rel>, mem: Memory): (r: (Memory, seq<Rel>))
    requires AllHandled(l, es)
  {
    if |scopes| == 0 then (mem, es)
    else
      DeferredFrom(l, scopes[0], es, |es|);
      Passed(l, scopes[1..], Deferred(l, scopes[0], es, |es|, true, []), StoreAll(l, scopes[0], es, |es|, mem))
  }

  /** What the passes together make of e: the value from the first symbols that resolve it, when it may
      wait for them. */
  ghost function First(l: Lib, scopes: seq<Scope>, e: Rel): (r: Resolution)
    requires l.Handles(e)
  {
    if |scopes| == 0 then Missing
    else if Resolve(l, scopes[0], e).Value? || !Deferrable(e) then Resolve(l, scopes[0], e)
    else First(l, scopes[1..], e)
  }

  /** The passes change no other address. */
  lemma {:induction false} PassedUntouched(l: Lib, scopes: seq<Scope>, es: seq<Rel>, mem: Memory, a: nat)
    requires AllHandled(l, es) && Apart(l, es, |es|, a)
    ensures Agree(Passed(l, scopes, es, mem).0, mem, a)
    decreases |scopes|
  {
    if |scopes| > 0 {
      var d, m := Deferred(l, scopes[0], es, |es|, true, []), StoreAll(l, scopes[0], es, |es|, mem);
      DeferredFrom(l, scopes[0], es, |es|);
      StillApart(l, scopes[0], es, a);
      Untouched(l, scopes[0], es, |es|, mem, a);
      hide Deferred, StoreAll, Apart;
      PassedUntouched(l, scopes[1..], d, m, a);
    }
  }

  lemma ShownThen(l: Lib, r: Resolution, e: Rel, mem: Memory, m: Memory, m': Memory)
    ensures Shown(l, r, e, mem, m) && Agree(m', m, l.Address(e.offset)) ==> Shown(l, r, e, mem, m')
    ensures Shown(l, Missing, e, mem, m) && Shown(l, r, e, m, m') ==> Shown(l, r, e, mem, m')
  {
  }

  lemma FirstCases(l: Lib, scopes: seq<Scope>, e: Rel)
    requires l.Handles(e) && |scopes| > 0
    ensures Kept(l, scopes[0], e, true) == [] ==> First(l, scopes, e) == Resolve(l, scopes[0], e)
    ensures Kept(l, scopes[0], e, true) != [] ==>
              Resolve(l, scopes[0], e) == Missing && First(l, scopes, e) == First(l, scopes[1..], e)
  {
  }

  /** Each entry ends up with the value from the first symbols that resolve it. */
  lemma {:induction false} PassedValues(l: Lib, scopes: seq<Scope>, es: seq<Rel>, mem: Memory, i: nat)
    requires AllHandled(l, es) && Distinct(l, es) && i < |es|
    ensures Shown(l, First(l, scopes, es[i]), es[i], mem, Passed(l, scopes, es, mem).0)
    decreases |scopes|
  {
    if |scopes| > 0 {
      hide Deferred, StoreAll, Apart, Distinct, Shown, Agree, First, Resolve, Kept;
      var s, e := scopes[0], es[i];
      var d, m := Deferred(l, s, es, |es|, true, []), StoreAll(l, s, es, |es|, mem);
      DeferredFrom(l, s, es, |es|);
      StoredValues(l, s, es, |es|, mem, i);
      FirstCases(l, scopes, e);
      if Kept(l, s, e, true) == [] {
        SettledApart(l, s, es, i);
        PassedUntouched(l, scopes[1..], d, m, l.Address(e.offset));
      } else {
        var j := WaitsAt(l, s, es, i);
        DeferredDistinct(l, s, es, |es|);
        PassedValues(l, scopes[1..], d, m, j);
      }
      ShownThen(l, First(l, scopes, e), e, mem, m, Passed(l, scopes[1..], d, m).0);
    }
  }

  /** Those of the first k entries that may wait and that none of the symbols resolves, in order. */
  ghost function Missed(l: Lib, scopes: seq<Scope>, es: seq<Rel>, k: nat): (r: seq<Rel>)
    requires AllHandled(l, es) && k <= |es|
  {
    if k == 0 then []
    else
      var e := es[k - 1];
      Missed(l, scopes, es, k - 1) + if First(l, scopes, e).Missing? && Deferrable(e) then [e] else []
  }

  lemma {:induction false} MissedPrefix(l: Lib, scopes: seq<Scope>, a: seq<Rel>, b: seq<Rel>, k: nat)
    requires AllHandled(l, a) && AllHandled(l, b) && k <= |a| && k <= |b| && a[..k] == b[..k]
    ensures Missed(l, scopes, a, k) == Missed(l, scopes, b, k)
  {
    if k > 0 {
      assert a[..k][k - 1] == a[k - 1] && b[..k][k - 1] == b[k - 1];
      assert a[..k - 1] == a[..k][..k - 1] && b[..k - 1] == b[..k][..k - 1];
      MissedPrefix(l, scopes, a, b, k - 1);
    }
  }

  lemma MissedMore(l: Lib, scopes: seq<Scope>, c: seq<Rel>, e: Rel)
    requires AllHandled(l, c) && l.Handles(e)
    ensures var d := c + [e];
            && AllHandled(l, d)
            && Missed(l, scopes, d, |d|) ==
               Missed(l, scopes, c, |c|) + if First(l, scopes, e).Missing? && Deferrable(e) then [e] else []
  {
    var d := c + [e];
    assert d[..|c|] == c[..|c|];
    MissedPrefix(l, scopes, c, d, |c|);
  }

  /** Of what a pass with the first symbols leaves, the others miss what all of them miss. */
  lemma {:induction false} MissedByRest(l: Lib, scopes: seq<Scope>, es: seq<Rel>, k: nat)
    requires |scopes| > 0 && AllHandled(l, es) && k <= |es|
    ensures var d := Deferred(l, scopes[0], es, k, true, []);
            AllHandled(l, d) && Missed(l, scopes[1..], d, |d|) == Missed(l, scopes, es, k)
  {
    if k > 0 {
      var e, c := es[k - 1], Deferred(l, scopes[0], es, k - 1, true, []);
      MissedByRest(l, scopes, es, k - 1);
      FirstCases(l, scopes, e);
      assert Kept(l, scopes[0], e, true) in {[], [e]} && c + [] == c;
      hide First, Resolve, Lib.Handles;
      MissedMore(l, scopes[1..], c, e);
    }
  }

  lemma {:induction false} NothingTried(l: Lib, es: seq<Rel>, k: nat)
    requires AllHandled(l, es) && k <= |es| && forall e | e in es :: Deferrable(e)
    ensures Missed(l, [], es, k) == es[..k]
  {
    if k > 0 {
      NothingTried(l, es, k - 1);
      assert es[k - 1] in es && es[..k] == es[..k - 1] + [es[k - 1]];
    }
  }

  /** What any number of replays leaves: exactly the entries that may wait and that no symbols resolved. */
  lemma {:induction false} LeftIsMissed(l: Lib, scopes: seq<Scope>, es: seq<Rel>, mem: Memory)
    requires AllHandled(l, es) && (|scopes| > 0 || forall e | e in es :: Deferrable(e))
    ensures Passed(l, scopes, es, mem).1 == Missed(l, scopes, es, |es|)
    decreases |scopes|
  {
    if |scopes| == 0 {
      NothingTried(l, es, |es|);
      assert es[..|es|] == es;
    } else {
      var d, m := Deferred(l, scopes[0], es, |es|, true, []), StoreAll(l, scopes[0], es, |es|, mem);
      DeferredFrom(l, scopes[0], es, |es|);
      MissedByRest(l, scopes, es, |es|);
      LeftIsMissed(l, scopes[1..], d, m);
    }
  }

  // ---------------------------------------------------------------------------------
  // When replays amount to one eager pass with the last symbols

  predicate SameValue(a: Resolution, b: Resolution) {
    if a.Value? && b.Value? then a.address % WORD == b.address % WORD else a.Missing? && b.Missing?
  }

  lemma SameSum(v: int, w: int, a: int)
    ensures (v + a) % WORD == (w + a) % WORD <==> v % WORD == w % WORD
  {
  }

  lemma ShownAgree(l: Lib, a: Resolution, b: Resolution, e: Rel, mem: Memory, x: Memory, y: Memory)
    requires Shown(l, a, e, mem, x) && Shown(l, b, e, mem, y)
    ensures var at := l.Address(e.offset);
            (SameValue(a, b) ==> Agree(x, y, at)) && (at !in mem ==> (Agree(x, y, at) <==> SameValue(a, b)))
  {
    if a.Value? && b.Value? {
      SameSum(a.address, b.address, e.addend);
    }
  }

  /** The passes and the eager pass give entry i the same, in whatever memory, exactly when its first
      and its last resolution have the same value. */
  lemma EntryAgrees(l: Lib, scopes: seq<Scope>, es: seq<Rel>, mem: Memory, i: nat)
    requires |scopes| > 0 && AllHandled(l, es) && Distinct(l, es) && i < |es|
    ensures var s, at := scopes[|scopes| - 1], l.Address(es[i].offset);
            var same := SameValue(First(l, scopes, es[i]), Resolve(l, s, es[i]));
            var agree := Agree(Passed(l, scopes, es, mem).0, StoreAll(l, s, es, |es|, mem), at);
            (same ==> agree) && (at !in mem ==> (agree <==> same))
  {
    var s, e := scopes[|scopes| - 1], es[i];
    var a, b := First(l, scopes, e), Resolve(l, s, e);
    hide Passed, StoreAll, First, Resolve, Distinct, Shown, Agree, SameValue;
    PassedValues(l, scopes, es, mem, i);
    StoredValues(l, s, es, |es|, mem, i);
    ShownAgree(l, a, b, e, mem, Passed(l, scopes, es, mem).0, StoreAll(l, s, es, |es|, mem));
  }

  lemma OthersAgree(l: Lib, scopes: seq<Scope>, scope: Scope, es: seq<Rel>, mem: Memory, a: nat)
    requires AllHandled(l, es) && Apart(l, es, |es|, a)
    ensures Agree(Passed(l, scopes, es, mem).0, StoreAll(l, scope, es, |es|, mem), a)
  {
    PassedUntouched(l, scopes, es, mem, a);
    Untouched(l, scope, es, |es|, mem, a);
  }

  lemma SameMemory(x: Memory, y: Memory)
    requires forall a: nat :: Agree(x, y, a)
    ensures x == y
  {
    assert forall a: nat | a in x || a in y :: Agree(x, y, a);
  }

  /** For every entry, the first symbols that resolve it give it the value of the last. */
  ghost predicate AllSame(l: Lib, scopes: seq<Scope>, es: seq<Rel>) {
    && |scopes| > 0 && AllHandled(l, es)
    && forall i | 0 <= i < |es| :: SameValue(First(l, scopes, es[i]), Resolve(l, scopes[|scopes| - 1], es[i]))
  }

  lemma SameGivesEager(l: Lib, scopes: seq<Scope>, es: seq<Rel>, mem: Memory)
    requires AllSame(l, scopes, es) && Distinct(l, es)
    ensures Passed(l, scopes, es, mem).0 == StoreAll(l, scopes[|scopes| - 1], es, |es|, mem)
  {
    var s := scopes[|scopes| - 1];
    var x, y := Passed(l, scopes, es, mem).0, StoreAll(l, s, es, |es|, mem);
    forall i | 0 <= i < |es| ensures Agree(x, y, l.Address(es[i].offset)) {
      EntryAgrees(l, scopes, es, mem, i);
    }
    hide Passed, StoreAll, Agree, First, Resolve;
    forall a: nat ensures Agree(x, y, a) {
      if Apart(l, es, |es|, a) {
        OthersAgree(l, scopes, s, es, mem, a);
      }
    }
    SameMemory(x, y);
  }

  /** Any number of replays, with any symbols, gives in every memory what one eager pass with the last
      symbols gives, exactly when each entry has its last value from the first symbols that resolve it. */
  lemma ReplaysAreEagerIff(l: Lib, scopes: seq<Scope>, es: seq<Rel>)
    requires |scopes| > 0 && AllHandled(l, es) && Distinct(l, es)
    ensures (forall mem :: Passed(l, scopes, es, mem).0 == StoreAll(l, scopes[|scopes| - 1], es, |es|, mem))
       <==> AllSame(l, scopes, es)
  {
    var s := scopes[|scopes| - 1];
    if AllSame(l, scopes, es) {
      forall mem ensures Passed(l, scopes, es, mem).0 == StoreAll(l, s, es, |es|, mem) {
        SameGivesEager(l, scopes, es, mem);
      }
    } else {
      var i :| 0 <= i < |es| && !SameValue(First(l, scopes, es[i]), Resolve(l, s, es[i]));
      EntryAgrees(l, scopes, es, map[], i);
      assert Passed(l, scopes, es, map[]).0 != StoreAll(l, s, es, |es|, map[]);
    }
  }

  lemma {:induction false} MissedByLast(l: Lib, scopes: seq<Scope>, e: Rel)
    requires l.Handles(e) && |scopes| > 0 && First(l, scopes, e).Missing? && Deferrable(e)
    ensures Resolve(l, scopes[|scopes| - 1], e).Missing?
  {
    if |scopes| > 1 {
      MissedByLast(l, scopes[1..], e);
    }
  }

  lemma {:induction false} MissedFrom(l: Lib, scopes: seq<Scope>, es: seq<Rel>, k: nat)
    requires AllHandled(l, es) && k <= |es|
    ensures forall e :: e in Missed(l, scopes, es, k) <==>
                        e in es[..k] && First(l, scopes, e).Missing? && Deferrable(e)
  {
    if k > 0 {
      MissedFrom(l, scopes, es, k - 1);
      assert es[..k] == es[..k - 1] + [es[k - 1]];
    }
  }

  /** No entry that waits with the last symbols has been resolved by earlier ones. */
  ghost predicate NoneResolvedBefore(l: Lib, scopes: seq<Scope>, es: seq<Rel>) {
    && |scopes| > 0 && AllHandled(l, es)
    && forall i | 0 <= i < |es| && Kept(l, scopes[|scopes| - 1], es[i], true) != [] :: First(l, scopes, es[i]).Missing?
  }

  lemma {:induction false} SameLeft(l: Lib, scopes: seq<Scope>, es: seq<Rel>, k: nat)
    requires NoneResolvedBefore(l, scopes, es) && k <= |es|
    ensures Missed(l, scopes, es, k) == Deferred(l, scopes[|scopes| - 1], es, k, true, [])
  {
    if k > 0 {
      SameLeft(l, scopes, es, k - 1);
      if First(l, scopes, es[k - 1]).Missing? && Deferrable(es[k - 1]) {
        MissedByLast(l, scopes, es[k - 1]);
      }
    }
  }

  /** Replays leave the entries that one eager pass with the last symbols leaves exactly when it leaves
      none that earlier symbols resolved. */
  lemma LeftIsEagerIff(l: Lib, scopes: seq<Scope>, es: seq<Rel>, mem: Memory)
    requires |scopes| > 0 && AllHandled(l, es)
    ensures Passed(l, scopes, es, mem).1 == Deferred(l, scopes[|scopes| - 1], es, |es|, true, []) <==>
            NoneResolvedBefore(l, scopes, es)
  {
    var s := scopes[|scopes| - 1];
    LeftIsMissed(l, scopes, es, mem);
    if NoneResolvedBefore(l, scopes, es) {
      SameLeft(l, scopes, es, |es|);
    } else {
      var i :| 0 <= i < |es| && Kept(l, s, es[i], true) != [] && First(l, scopes, es[i]).Value?;
      MissedFrom(l, scopes, es, |es|);
      DeferredFrom(l, s, es, |es|);
      assert es[i] in es[..|es|];
    }
  }

  // ---------------------------------------------------------------------------------
  // The symbols of dlopen: after the first pass the list may shrink, from the first replay on it grows

  /** Later symbols add definitions and change none. */
  ghost predicate Extends(earlier: Scope, later: Scope) {
    forall k | k in earlier :: k in later && later[k] == earlier[k]
  }

  ghost predicate Growing(scopes: seq<Scope>) {
    forall i | 0 <= i < |scopes| - 1 :: Extends(scopes[i], scopes[i + 1])
  }

  lemma GrowingTail(scopes: seq<Scope>)
    requires |scopes| > 1 && Growing(scopes)
    ensures Growing(scopes[1..])
  {
    forall i | 0 <= i < |scopes| - 2 ensures Extends(scopes[1..][i], scopes[1..][i + 1]) {
      assert Extends(scopes[i + 1], scopes[i + 2]);
    }
  }

  lemma {:induction false} ExtendsLast(scopes: seq<Scope>)
    requires |scopes| > 0 && Growing(scopes)
    ensures Extends(scopes[0], scopes[|scopes| - 1])
  {
    if |scopes| > 1 {
      GrowingTail(scopes);
      ExtendsLast(scopes[1..]);
      assert Extends(scopes[0], scopes[1]);
    }
  }

  /** By its key, e is looked up in both symbol lists, and the definition of the one is not that of the
      other: gone, moved, or there only later although e could not wait for it. */
  predicate Changed(l: Lib, earlier: Scope, later: Scope, e: Rel)
    requires l.Handles(e)
  {
    e.SymIndex() != 0 && l.syms[e.SymIndex()].bind != Local &&
    var sym := l.syms[e.SymIndex()];
    var key, optional := Key(sym.name, e.Type() == PLT), sym.bind == Weak && sym.undefined;
    if key in earlier && key in later then earlier[key] % WORD != later[key] % WORD
    else if key in earlier then !(optional && earlier[key] % WORD == 0)
    else if key in later then if optional then later[key] % WORD != 0 else !Deferrable(e)
    else false
  }

  ghost predicate NoneChanged(l: Lib, earlier: Scope, later: Scope, es: seq<Rel>) {
    AllHandled(l, es) && forall i | 0 <= i < |es| :: !Changed(l, earlier, later, es[i])
  }

  /** What waits has no value without a definition, so in a growing list the first is the last. */
  lemma {:induction false} GrowingFirst(l: Lib, scope: Scope, scopes: seq<Scope>, e: Rel)
    requires l.Handles(e) && |scopes| > 0 && Growing(scopes) && Kept(l, scope, e, true) != []
    ensures First(l, scopes, e) == Resolve(l, scopes[|scopes| - 1], e)
  {
    if |scopes| > 1 {
      GrowingTail(scopes);
      ExtendsLast(scopes);
      if Resolve(l, scopes[0], e).Missing? {
        GrowingFirst(l, scope, scopes[1..], e);
      }
    }
  }

  lemma SameUnlessChanged(l: Lib, scopes: seq<Scope>, e: Rel)
    requires l.Handles(e) && |scopes| > 0 && Growing(scopes[1..])
    ensures var s := scopes[|scopes| - 1];
            SameValue(First(l, scopes, e), Resolve(l, s, e)) <==> !Changed(l, scopes[0], s, e)
  {
    if |scopes| > 1 && Kept(l, scopes[0], e, true) != [] {
      GrowingFirst(l, scopes[0], scopes[1..], e);
    }
  }

  /** As libraries are loaded one after the other, with or without RTLD_GLOBAL: replays amount to one
      eager pass with the last symbols exactly when no key an entry looks up has changed between the
      first pass and the last. */
  lemma LoadingIsEagerIff(l: Lib, scopes: seq<Scope>, es: seq<Rel>)
    requires |scopes| > 0 && AllHandled(l, es) && Distinct(l, es) && Growing(scopes[1..])
    ensures (forall mem :: Passed(l, scopes, es, mem).0 == StoreAll(l, scopes[|scopes| - 1], es, |es|, mem))
       <==> NoneChanged(l, scopes[0], scopes[|scopes| - 1], es)
  {
    ReplaysAreEagerIff(l, scopes, es);
    var s := scopes[|scopes| - 1];
    forall i | 0 <= i < |es|
      ensures SameValue(First(l, scopes, es[i]), Resolve(l, s, es[i])) <==> !Changed(l, scopes[0], s, es[i])
    {
      SameUnlessChanged(l, scopes, es[i]);
    }
  }

  /** One pass with any symbols and one replay with any others. */
  lemma LazyIsEagerIff(l: Lib, s1: Scope, s2: Scope, es: seq<Rel>)
    requires AllHandled(l, es) && Distinct(l, es)
    ensures (forall mem :: Passed(l, [s1, s2], es, mem).0 == StoreAll(l, s2, es, |es|, mem))
       <==> NoneChanged(l, s1, s2, es)
  {
    var scopes := [s1, s2];
    assert scopes[1..] == [s2];
    LoadingIsEagerIff(l, scopes, es);
  }

  /** A library with one GOT entry, for symbol f. */
  function OneEntry(bind: Bind): (r: (Lib, Rel))
    ensures r.0.Handles(r.1)
  {
    (Lib(0, [Sym("", Local, true, 0), Sym("f", bind, true, 0)]), Rel(8, 0x1_0000_0000 + GOT, 0))
  }

  /** A weak symbol f that a later library defines: the pass has stored 0, the eager pass would store
      the definition. */
  lemma WeakDefinedLater() returns (l: Lib, s1: Scope, s2: Scope, es: seq<Rel>)
    ensures AllHandled(l, es) && Distinct(l, es) && Extends(s1, s2)
    ensures Deferred(l, s1, es, |es|, true, []) == []
    ensures exists mem :: Passed(l, [s1, s2], es, mem).0 != StoreAll(l, s2, es, |es|, mem)
  {
    var (lib, e) := OneEntry(Weak);
    l, es, s1, s2 := lib, [e], map[], map[Key("f", false) := 5];
    assert Changed(l, s1, s2, es[0]);
    LazyIsEagerIff(l, s1, s2, es);
  }

  /** Without RTLD_GLOBAL the library that defines f is on the list in the first pass only: the entry keeps
      its value, where an eager pass with the shorter list would leave it waiting. */
  lemma DefinedLocally() returns (l: Lib, s1: Scope, s2: Scope, es: seq<Rel>)
    ensures AllHandled(l, es) && Distinct(l, es) && Extends(s2, s1)
    ensures exists mem :: Passed(l, [s1, s2], es, mem).0 != StoreAll(l, s2, es, |es|, mem)
    ensures forall mem :: Passed(l, [s1, s2], es, mem).1 == [] && Deferred(l, s2, es, |es|, true, []) == es
  {
    var (lib, e) := OneEntry(Global);
    l, es, s1, s2 := lib, [e], map[Key("f", false) := 5], map[];
    assert Changed(l, s1, s2, es[0]);
    LazyIsEagerIff(l, s1, s2, es);
    forall mem ensures Passed(l, [s1, s2], es, mem).1 == [] {
      LeftIsMissed(l, [s1, s2], es, mem);
      assert First(l, [s1, s2], e) == Value(5);
    }
  }
}
