/** Address space identifiers: allocation in generations, the deferred flush of the translation
    lookaside buffer, and what user code may find in that buffer. */
module Asid {

  /** The constant part of a task control block.  Tasks of one group share the rest. */
  datatype Task = Task(id: nat, user: bool, tgid: nat, space: nat)

  /** n = 2^asid_bits identifiers, limit = 2^(32 - asid_bits) generations before the 32-bit
      counter wraps, and the tag by which the processor tells buffer entries apart. */
  datatype Config = Config(n: nat, limit: nat, tag: nat -> nat)

  ghost predicate Sane(c: Config) {
    c.n >= 2 && c.limit >= 2
  }

  /** An asid_t: the generation in the bits from asid_bits on, the index in those below. */
  datatype Id = Id(gen: nat, idx: nat)

  const NONE := Id(0, 0)

  /** The globals of the allocator: generation number, bitmap, flush flag, cur_idx, and the asid
      field of each task in which it is not 0. */
  datatype Asids = Asids(gen: nat, used: set<nat>, flush: bool, cur: nat, asid: map<Task, Id>) {
    function Of(t: Task): (a: Id) {
      if t in asid then asid[t] else NONE
    }
  }

  /** find_next_zero_bit */
  function LeastFree(used: set<nat>, from: nat, n: nat): (r: nat)
    ensures from <= n ==> from <= r <= n
    ensures r < n ==> r !in used
    ensures forall i: nat | from <= i < r && i < n :: i in used
    decreases n - from
  {
    if from >= n then n else if from !in used then from else LeastFree(used, from + 1, n)
  }

  /** (generation >> asid_bits) + 1 shifted back, in 32 bits: wraps to 0 at the limit. */
  function NextGen(g: nat, limit: nat): (r: nat) {
    if g + 1 < limit then g + 1 else 0
  }

  /** check_and_switch_context: new globals and returned value.  The reuse path does not store
      what it returns, and the allocation path returns the index without the generation. */
  function Choose(c: Config, s: Asids, t: Task): (r: (Asids, Id))
    requires c.n >= 2 && c.limit >= 2
  {
    var a := s.Of(t);
    if !t.user then (s, NONE)
    else if a.gen == s.gen then (s, a)
    else if a != NONE && a.idx !in s.used then (s.(used := s.used + {a.idx}), Id(s.gen, a.idx))
    else
      var i := LeastFree(s.used, s.cur, c.n);
      if i < c.n then
        (s.(used := s.used + {i}, asid := s.asid[t := Id(s.gen, i)], cur := i), Id(0, i))
      else
        var g := NextGen(s.gen, c.limit);
        (Asids(g, {1}, true, 1, s.asid[t := Id(g, 1)]), Id(0, 1))
  }

  /** A buffer entry: translations of an address space under a tag. */
  datatype Xlat = Xlat(tag: nat, space: nat)

  /** Record that identifier i went to task t in generation g. */
  datatype Grant = Grant(g: nat, i: nat, t: Task)

  /** The machine: allocator, running task, TTBR0, the buffer, and the history of grants. */
  datatype Machine = Machine(a: Asids, running: Task, ttbr: Xlat, tlb: set<Xlat>, log: set<Grant>)

  /** task_switch.  The register holds asid << (64 - asid_bits), so only the index reaches it. */
  function SwitchTo(c: Config, s: Machine, to: Task): (s': Machine)
    requires c.n >= 2 && c.limit >= 2
  {
    var (a, asid) := Choose(c, s.a, to);
    var i := asid.idx;
    var log := if to.user then s.log + {Grant(a.gen, i, to)} else s.log;
    if to.tgid == s.running.tgid then
      s.(a := a, running := to, log := log)
    else
      var ttbr := if to.user then Xlat(c.tag(i), to.space) else s.ttbr;
      if a.flush then Machine(a.(flush := false), to, ttbr, {}, log)
      else Machine(a, to, ttbr, s.tlb, log)
  }

  /** User code runs for a while and fills the buffer. */
  function RunUser(s: Machine): (s': Machine) {
    if s.running.user then s.(tlb := s.tlb + {s.ttbr}) else s
  }

  datatype Event = Switch(to: Task) | User

  function Next(c: Config, s: Machine, e: Event): (s': Machine)
    requires c.n >= 2 && c.limit >= 2
  {
    match e
    case Switch(to) => SwitchTo(c, s, to)
    case User => RunUser(s)
  }

  /** Tasks of one group have one address space and one type. */
  ghost predicate Groups(ts: set<Task>) {
    forall t, u | t in ts && u in ts && t.tgid == u.tgid :: t.user == u.user && t.space == u.space
  }

  ghost predicate Start(s: Machine) {
    s.a == Asids(1, {}, false, 1, map[]) && !s.running.user && s.tlb == {} && s.log == {}
  }

  /** ss are the states of a run over tasks ts in which the generation counter did not wrap. */
  ghost predicate Run(c: Config, ts: set<Task>, ss: seq<Machine>, es: seq<Event>) {
    && Sane(c) && Groups(ts) && |ss| == |es| + 1 && Start(ss[0]) && ss[0].running in ts
    && (forall i | 0 <= i < |es| :: es[i].Switch? ==> es[i].to in ts)
    && (forall i | 0 <= i < |es| :: ss[i + 1] == Next(c, ss[i], es[i]))
    && (forall i | 0 <= i < |ss| :: ss[i].a.gen != 0)
  }

  /** User code finds its own translations only. */
  ghost predicate Safe(s: Machine) {
    s.running.user ==>
      && s.ttbr.space == s.running.space
      && forall x | x in s.tlb && x.tag == s.ttbr.tag :: x.space == s.running.space
  }

  ghost predicate Granted(s: Machine, i: nat, space: nat) {
    exists t :: Grant(s.a.gen, i, t) in s.log && t.space == space
  }

  /** The entry stems from an identifier granted in this generation. */
  ghost predicate Owned(c: Config, s: Machine, x: Xlat) {
    exists i: nat :: x.tag == c.tag(i) && Granted(s, i, x.space)
  }

  ghost predicate Injective(c: Config) {
    forall i, j | 1 <= i < c.n && 1 <= j < c.n && c.tag(i) == c.tag(j) :: i == j
  }

  /** Within a generation an identifier goes to one task, and never identifier 0. */
  ghost predicate GrantsUnique(c: Config, s: Machine) {
    && (forall r | r in s.log :: 1 <= r.i < c.n && r.g <= s.a.gen)
    && (forall r, q | r in s.log && q in s.log && r.g == q.g && r.i == q.i :: r.t == q.t)
  }

  ghost predicate Book(c: Config, s: Machine) {
    && 1 <= s.a.gen < c.limit && 1 <= s.a.cur < c.n
    && (forall r | r in s.log && r.g == s.a.gen :: r.i in s.a.used)
    && (forall t | t in s.a.asid :: Grant(s.a.asid[t].gen, s.a.asid[t].idx, t) in s.log)
  }

  ghost predicate Buffer(c: Config, s: Machine) {
    if s.a.flush then
      s.running.user && Safe(s)
    else
      && (forall x | x in s.tlb :: Owned(c, s, x))
      && (s.running.user ==> s.ttbr.space == s.running.space && Owned(c, s, s.ttbr))
  }

  ghost predicate Inv(c: Config, s: Machine) {
    GrantsUnique(c, s) && Book(c, s) && Buffer(c, s)
  }

  /** The invariant means safety when distinct identifiers have distinct tags. */
  lemma InvSafe(c: Config, s: Machine)
    requires Inv(c, s) && Injective(c)
    ensures Safe(s)
  {
    if s.running.user && !s.a.flush {
      var i: nat :| s.ttbr.tag == c.tag(i) && Granted(s, i, s.ttbr.space);
      var t :| Grant(s.a.gen, i, t) in s.log && t.space == s.ttbr.space;
      forall x | x in s.tlb && x.tag == s.ttbr.tag ensures x.space == s.running.space {
        var j: nat :| x.tag == c.tag(j) && Granted(s, j, x.space);
        var u :| Grant(s.a.gen, j, u) in s.log && u.space == x.space;
        assert Grant(s.a.gen, i, t).i == i && Grant(s.a.gen, j, u).i == j;
      }
    }
  }

  /** check_and_switch_context keeps the books, whichever path it takes. */
  lemma ChooseKeeps(c: Config, s: Machine, t: Task)
    requires Sane(c) && GrantsUnique(c, s) && Book(c, s) && t.user
    requires Choose(c, s.a, t).0.gen != 0
    ensures var (a, asid) := Choose(c, s.a, t);
            var s' := s.(a := a, log := s.log + {Grant(a.gen, asid.idx, t)});
            && GrantsUnique(c, s') && Book(c, s')
            && (a.gen == s.a.gen ==> a.flush == s.a.flush)
            && (a.gen != s.a.gen ==> a.flush)
  {
    var (a, asid) := Choose(c, s.a, t);
    var r := Grant(a.gen, asid.idx, t);
    var v := s.a.Of(t);
    hide LeastFree;
    if v.gen == s.a.gen {
      assert s.log + {r} == s.log;
    } else if v != NONE && v.idx !in s.a.used {
      assert Grant(v.gen, v.idx, t) in s.log;
    } else if LeastFree(s.a.used, s.a.cur, c.n) == c.n {
      assert a.gen == s.a.gen + 1;
    }
  }

  lemma SwitchKeeps(c: Config, s: Machine, to: Task)
    requires Sane(c) && Inv(c, s) && Injective(c)
    requires to.tgid == s.running.tgid ==> to.user == s.running.user && to.space == s.running.space
    requires SwitchTo(c, s, to).a.gen != 0
    ensures Inv(c, SwitchTo(c, s, to))
  {
    var (a, asid) := Choose(c, s.a, to);
    var s' := SwitchTo(c, s, to);
    if to.user {
      ChooseKeeps(c, s, to);
      assert Grant(a.gen, asid.idx, to) in s'.log;
      assert Granted(s', asid.idx, to.space);
      if a.gen == s.a.gen {
        KeepsOwned(c, s, s');
      } else if to.tgid == s.running.tgid {
        InvSafe(c, s);
      }
    } else if !s.a.flush {
      KeepsOwned(c, s, s');
    }
  }

  /** What was owned stays owned while the generation lasts. */
  lemma KeepsOwned(c: Config, s: Machine, s': Machine)
    requires s.a.gen == s'.a.gen && s.log <= s'.log
    ensures forall x | Owned(c, s, x) :: Owned(c, s', x)
  {
    forall x | Owned(c, s, x) ensures Owned(c, s', x) {
      var i: nat :| x.tag == c.tag(i) && Granted(s, i, x.space);
      var t :| Grant(s.a.gen, i, t) in s.log && t.space == x.space;
      assert Grant(s'.a.gen, i, t) in s'.log;
      assert Granted(s', i, x.space);
    }
  }

  lemma UserKeeps(c: Config, s: Machine)
    requires Inv(c, s)
    ensures Inv(c, RunUser(s))
  {
    KeepsOwned(c, s, RunUser(s));
  }

  lemma {:induction false} RunKeepsInv(c: Config, ts: set<Task>, ss: seq<Machine>, es: seq<Event>, k: nat)
    requires Run(c, ts, ss, es) && Injective(c) && k < |ss|
    ensures Inv(c, ss[k]) && ss[k].running in ts
  {
    if k > 0 {
      RunKeepsInv(c, ts, ss, es, k - 1);
      assert ss[k - 1 + 1] == Next(c, ss[k - 1], es[k - 1]);
      match es[k - 1]
      case Switch(to) => SwitchKeeps(c, ss[k - 1], to);
      case User => UserKeeps(c, ss[k - 1]);
    }
  }

  /** Over every run in which the counter does not wrap: an identifier goes to one task per
      generation and is never 0, and user code never meets foreign translations. */
  lemma TlbSafety(c: Config, ts: set<Task>, ss: seq<Machine>, es: seq<Event>, k: nat)
    requires Run(c, ts, ss, es) && Injective(c) && k < |ss|
    ensures GrantsUnique(c, ss[k]) && Safe(ss[k])
  {
    RunKeepsInv(c, ts, ss, es, k);
    InvSafe(c, ss[k]);
  }

  // ---------------------------------------------------------------------------------
  // Distinct tags are needed, too

  function Idle(): (t: Task) { Task(0, false, 0, 0) }

  function Proc(k: nat): (t: Task) { Task(k, true, k, k) }

  function Procs(k: nat): (ts: set<Task>)
    ensures forall t :: t in ts <==> t == Idle() || exists j: nat :: 1 <= j <= k && t == Proc(j)
  {
    if k == 0 then {Idle()} else Procs(k - 1) + {Proc(k)}
  }

  /** Processes 1 to k have run for the first time, one after the other. */
  ghost predicate Climbed(c: Config, k: nat, s: Machine) {
    && s.a.gen == 1 && !s.a.flush && s.a.cur == (if k == 0 then 1 else k)
    && (forall i: nat :: i in s.a.used <==> 1 <= i <= k)
    && (forall t | t in s.a.asid :: t.id <= k) && (forall j: nat | 1 <= j <= k :: s.a.Of(Proc(j)) == Id(1, j))
    && s.running == (if k == 0 then Idle() else Proc(k))
    && (k > 0 ==> s.ttbr == Xlat(c.tag(k), k))
    && (forall j: nat | 1 <= j <= k :: Xlat(c.tag(j), j) in s.tlb)
  }

  lemma ClimbOne(c: Config, k: nat, s: Machine)
    requires Sane(c) && k + 1 < c.n && Climbed(c, k, s)
    ensures Climbed(c, k + 1, RunUser(SwitchTo(c, s, Proc(k + 1))))
    ensures SwitchTo(c, s, Proc(k + 1)).a.gen == 1
  {
    var t := Proc(k + 1);
    assert t !in s.a.asid;
    var i := LeastFree(s.a.used, s.a.cur, c.n);
    assert k + 1 !in s.a.used;
    assert i == k + 1;
    var a := s.a.(used := s.a.used + {i}, asid := s.a.asid[t := Id(s.a.gen, i)], cur := i);
    assert Choose(c, s.a, t) == (a, Id(0, i));
    var s' := RunUser(SwitchTo(c, s, t));
    assert s'.ttbr == Xlat(c.tag(k + 1), k + 1) && s'.tlb == s.tlb + {s'.ttbr};
  }

  lemma Extend(c: Config, ts: set<Task>, ss: seq<Machine>, es: seq<Event>, e: Event)
    requires Run(c, ts, ss, es) && (e.Switch? ==> e.to in ts)
    requires Next(c, ss[|ss| - 1], e).a.gen != 0
    ensures Run(c, ts, ss + [Next(c, ss[|ss| - 1], e)], es + [e])
  {
    var ss', es' := ss + [Next(c, ss[|ss| - 1], e)], es + [e];
    forall i | 0 <= i < |es'| ensures ss'[i + 1] == Next(c, ss'[i], es'[i]) {
      if i < |es| {
        assert ss[i + 1] == Next(c, ss[i], es[i]);
      }
    }
  }

  lemma MoreTasks(c: Config, ts: set<Task>, ts': set<Task>, ss: seq<Machine>, es: seq<Event>)
    requires Run(c, ts, ss, es) && ts <= ts' && Groups(ts')
    ensures Run(c, ts', ss, es)
  {
  }

  lemma FirstRun(c: Config, k: nat, ss: seq<Machine>, es: seq<Event>)
    returns (ss': seq<Machine>, es': seq<Event>)
    requires k + 1 < c.n && Run(c, Procs(k), ss, es) && Climbed(c, k, ss[|ss| - 1])
    ensures Run(c, Procs(k + 1), ss', es') && Climbed(c, k + 1, ss'[|ss'| - 1])
  {
    var s := ss[|ss| - 1];
    ClimbOne(c, k, s);
    ProcsGrow(k + 1);
    MoreTasks(c, Procs(k), Procs(k + 1), ss, es);
    var e1, s1 := Switch(Proc(k + 1)), SwitchTo(c, s, Proc(k + 1));
    assert Next(c, s, e1) == s1;
    Extend(c, Procs(k + 1), ss, es, e1);
    assert Next(c, s1, User) == RunUser(s1);
    Extend(c, Procs(k + 1), ss + [s1], es + [e1], User);
    ss', es' := ss + [s1] + [RunUser(s1)], es + [e1] + [User];
  }

  lemma ClimbStart(c: Config) returns (ss: seq<Machine>, es: seq<Event>)
    requires Sane(c)
    ensures Run(c, Procs(0), ss, es) && Climbed(c, 0, ss[|ss| - 1])
  {
    ss, es := [Machine(Asids(1, {}, false, 1, map[]), Idle(), Xlat(0, 0), {}, {})], [];
  }

  lemma {:induction false} ClimbRun(c: Config, k: nat) returns (ss: seq<Machine>, es: seq<Event>)
    requires Sane(c) && k < c.n
    ensures Run(c, Procs(k), ss, es) && Climbed(c, k, ss[|ss| - 1])
  {
    if k == 0 {
      ss, es := ClimbStart(c);
    } else {
      ss, es := ClimbRun(c, k - 1);
      ss, es := FirstRun(c, k - 1, ss, es);
    }
  }

  lemma ProcsGrow(k: nat)
    requires k > 0
    ensures Procs(k - 1) <= Procs(k) && Proc(k) in Procs(k) && Groups(Procs(k))
  {
    forall t, u | t in Procs(k) && u in Procs(k) && t.tgid == u.tgid ensures t == u {
    }
  }

  /** Two identifiers with one tag: some run lets user code meet foreign translations. */
  lemma SharedTagUnsafe(c: Config, a: nat, b: nat) returns (ss: seq<Machine>, es: seq<Event>)
    requires Sane(c) && 1 <= a < b < c.n && c.tag(a) == c.tag(b)
    ensures Run(c, Procs(b), ss, es) && !Safe(ss[|ss| - 1])
  {
    ss, es := ClimbRun(c, b);
    assert Xlat(c.tag(a), a) in ss[|ss| - 1].tlb;
  }

  ghost predicate AlwaysSafe(c: Config) {
    forall ts, ss, es, k: nat | Run(c, ts, ss, es) && k < |ss| :: Safe(ss[k])
  }

  /** Exactly when the kernel's identifiers keep address spaces apart. */
  lemma SafeIffTagsDistinct(c: Config)
    requires Sane(c)
    ensures AlwaysSafe(c) <==> Injective(c)
  {
    if Injective(c) {
      forall ts, ss, es, k: nat | Run(c, ts, ss, es) && k < |ss| ensures Safe(ss[k]) {
        TlbSafety(c, ts, ss, es, k);
      }
    } else {
      var i, j :| 1 <= i < c.n && 1 <= j < c.n && c.tag(i) == c.tag(j) && i != j;
      var ss, es := SharedTagUnsafe(c, if i < j then i else j, if i < j then j else i);
      assert Run(c, Procs(if i < j then j else i), ss, es) && |ss| - 1 < |ss|;
    }
  }

  /** The tag the processor takes from a TTBR0 that holds asid << (64 - asid_bits): the field is
      bits 63..48, of which only the low 8 count unless the processor has 16-bit identifiers and
      TCR_EL1.AS selects them. */
  function HardwareTag(asidBits: nat, as16: bool): (tag: nat -> nat)
    requires asidBits == 8 || asidBits == 16
  {
    if asidBits == 8 then (i: nat) => i * 0x100 % 0x100
    else if as16 then (i: nat) => i % 0x10000
    else (i: nat) => i % 0x100
  }

  /** asid_initialize for a processor with 8- or 16-bit identifiers. */
  function Configured(asidBits: nat, as16: bool): (c: Config)
    requires asidBits == 8 || asidBits == 16
  {
    if asidBits == 8 then Config(0x100, 0x1000000, HardwareTag(8, as16))
    else Config(0x10000, 0x10000, HardwareTag(16, as16))
  }

  /** User code is safe exactly with 16-bit identifiers and TCR_EL1.AS set; boot leaves AS clear. */
  lemma ConfiguredSafeIff(asidBits: nat, as16: bool)
    requires asidBits == 8 || asidBits == 16
    ensures AlwaysSafe(Configured(asidBits, as16)) <==> asidBits == 16 && as16
  {
    var c := Configured(asidBits, as16);
    if asidBits == 16 && as16 {
      assert forall i: nat | i < c.n :: c.tag(i) == i;
    } else if asidBits == 8 {
      assert c.tag(1) == c.tag(2);
      assert !Injective(c);
    } else {
      assert c.tag(1) == c.tag(257);
      assert !Injective(c);
    }
    SafeIffTagsDistinct(c);
  }
}
