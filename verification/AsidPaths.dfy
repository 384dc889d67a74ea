/** Which identifier a switch uses: the paths of check_and_switch_context, and what they mean for a task
    over whole runs. */
module AsidPaths {
  import opened Asid

  /** The identifier of t is from an earlier generation and its index free: it is used again. */
  predicate Reuses(s: Asids, t: Task) {
    s.Of(t).gen != s.gen && s.Of(t) != NONE && s.Of(t).idx !in s.used
  }

  /** Index i is the first free one from cur on. */
  ghost predicate NextFree(c: Config, s: Asids, i: nat) {
    s.cur <= i < c.n && i !in s.used && forall j: nat | s.cur <= j < i :: j in s.used
  }

  ghost predicate AllInUse(c: Config, s: Asids) {
    forall j: nat | s.cur <= j < c.n :: j in s.used
  }

  /** A task that is no user task has no identifier; a current identifier stays. */
  lemma KeepsCurrent(c: Config, s: Asids, t: Task)
    requires Sane(c)
    ensures !t.user ==> Choose(c, s, t) == (s, NONE)
    ensures t.user && s.Of(t).gen == s.gen ==> Choose(c, s, t) == (s, s.Of(t))
  {
  }

  /** A stale one with a free index moves to this generation; nothing is stored in the task. */
  lemma ReusesIndex(c: Config, s: Asids, t: Task)
    requires Sane(c) && t.user && Reuses(s, t)
    ensures var (a, id) := Choose(c, s, t);
            && id == Id(s.gen, s.Of(t).idx) && a.used == s.used + {s.Of(t).idx}
            && a.asid == s.asid && a.gen == s.gen && a.cur == s.cur && a.flush == s.flush
  {
  }

  /** Else the task gets the first free index from cur on. */
  lemma TakesNext(c: Config, s: Asids, t: Task, i: nat)
    requires Sane(c) && t.user && s.Of(t).gen != s.gen && !Reuses(s, t) && NextFree(c, s, i)
    ensures var (a, id) := Choose(c, s, t);
            && id == Id(0, i) && a.used == s.used + {i} && a.asid == s.asid[t := Id(s.gen, i)] && a.cur == i
            && a.gen == s.gen && a.flush == s.flush
  {
    assert LeastFree(s.used, s.cur, c.n) == i;
  }

  /** Or, when there is none, index 1 of the next generation, with a flush. */
  lemma RollsOver(c: Config, s: Asids, t: Task)
    requires Sane(c) && t.user && s.Of(t).gen != s.gen && !Reuses(s, t) && AllInUse(c, s)
    ensures var (a, id) := Choose(c, s, t);
            var g := if s.gen + 1 < c.limit then s.gen + 1 else 0;
            && id == Id(0, 1) && a.used == {1} && a.asid == s.asid[t := Id(g, 1)] && a.cur == 1
            && a.gen == g && a.flush
  {
    assert LeastFree(s.used, s.cur, c.n) == c.n;
  }

  lemma SomeNext(c: Config, s: Asids) returns (i: nat)
    ensures !AllInUse(c, s) ==> NextFree(c, s, i)
  {
    i := LeastFree(s.used, s.cur, c.n);
  }

  /** task_switch, path by path: within a group neither register nor buffer changes; else the register is
      set for a user task, and the buffer is emptied if and only if a flush is due, which it then is not. */
  lemma SwitchEffects(c: Config, s: Machine, to: Task)
    requires Sane(c)
    ensures var (a, id) := Choose(c, s.a, to);
            var r := SwitchTo(c, s, to);
            && r.running == to && r.a == a.(flush := r.a.flush)
            && (to.tgid == s.running.tgid ==> r.ttbr == s.ttbr && r.tlb == s.tlb && r.a.flush == a.flush)
            && (to.tgid != s.running.tgid ==>
                  && r.ttbr == (if to.user then Xlat(c.tag(id.idx), to.space) else s.ttbr)
                  && r.tlb == (if a.flush then {} else s.tlb) && !r.a.flush)
  {
  }

  // ---------------------------------------------------------------------------------
  // Runs

  ghost predicate RunsOn(c: Config, ts: set<Task>, ss: seq<Machine>, es: seq<Event>, i: nat) {
    Run(c, ts, ss, es) && i < |es|
  }

  /** A generation ends exactly at a switch to a task without a current or reusable identifier for which
      every index from cur on is in use. */
  lemma GenerationEndsIff(c: Config, ts: set<Task>, ss: seq<Machine>, es: seq<Event>, i: nat)
    requires RunsOn(c, ts, ss, es, i)
    ensures ss[i + 1].a.gen != ss[i].a.gen <==>
            && es[i].Switch? && es[i].to.user && ss[i].a.Of(es[i].to).gen != ss[i].a.gen
            && !Reuses(ss[i].a, es[i].to) && AllInUse(c, ss[i].a)
    ensures ss[i].a.gen <= ss[i + 1].a.gen
  {
    var s := ss[i];
    assert ss[i + 1] == Next(c, s, es[i]) && s.a.gen != 0 && ss[i + 1].a.gen != 0;
    if es[i].Switch? && es[i].to.user && s.a.Of(es[i].to).gen != s.a.gen && !Reuses(s.a, es[i].to) {
      if AllInUse(c, s.a) {
        RollsOver(c, s.a, es[i].to);
      } else {
        var k := SomeNext(c, s.a);
        TakesNext(c, s.a, es[i].to, k);
      }
    }
  }

  lemma {:induction false} GenerationsRise(c: Config, ts: set<Task>, ss: seq<Machine>, es: seq<Event>, i: nat, j: nat)
    requires Run(c, ts, ss, es) && i <= j <= |es|
    ensures ss[i].a.gen <= ss[j].a.gen
    decreases j
  {
    hide Next, Start, Groups;
    if i < j {
      GenerationsRise(c, ts, ss, es, i, j - 1);
      GenerationEndsIff(c, ts, ss, es, j - 1);
    }
  }

  /** What one step of a generation means for the identifier of t. */
  lemma StepOf(c: Config, ts: set<Task>, ss: seq<Machine>, es: seq<Event>, k: nat, t: Task)
    requires RunsOn(c, ts, ss, es, k) && t.user && ss[k + 1].a.gen == ss[k].a.gen
    ensures ss[k].a.used <= ss[k + 1].a.used
    ensures es[k] != Switch(t) || ss[k].a.Of(t).gen == ss[k].a.gen || Reuses(ss[k].a, t) ==>
              ss[k + 1].a.Of(t) == ss[k].a.Of(t)
    ensures es[k] == Switch(t) && ss[k].a.Of(t).gen != ss[k].a.gen && !Reuses(ss[k].a, t) ==>
              ss[k + 1].a.Of(t).gen == ss[k].a.gen && ss[k + 1].a.Of(t).idx !in ss[k].a.used
              && Choose(c, ss[k].a, t).1.idx == ss[k + 1].a.Of(t).idx
    ensures es[k] == Switch(t) && Reuses(ss[k].a, t) ==> ss[k].a.Of(t).idx in ss[k + 1].a.used
  {
    assert ss[k + 1] == Next(c, ss[k], es[k]);
    GenerationEndsIff(c, ts, ss, es, k);
  }

  /** An identifier stored in this generation stays. */
  lemma {:induction false} StaysStored(c: Config, ts: set<Task>, ss: seq<Machine>, es: seq<Event>, i: nat, k: nat,
                                       t: Task)
    requires Run(c, ts, ss, es) && i <= k <= |es| && t.user && ss[i].a.gen == ss[k].a.gen
    requires ss[i].a.Of(t).gen == ss[i].a.gen
    ensures ss[k].a.Of(t) == ss[i].a.Of(t)
    decreases k
  {
    hide Next, Start, Groups, Reuses;
    if i < k {
      GenerationsRise(c, ts, ss, es, i, k - 1);
      GenerationsRise(c, ts, ss, es, k - 1, k);
      StaysStored(c, ts, ss, es, i, k - 1, t);
      StepOf(c, ts, ss, es, k - 1, t);
    }
  }

  /** t has index x in this generation without a record of it, or has got another one since. */
  ghost predicate Forgotten(a: Asids, t: Task, x: nat) {
    x in a.used && if a.Of(t).gen == a.gen then a.Of(t).idx != x else a.Of(t) != NONE && a.Of(t).idx == x
  }

  lemma {:induction false} StaysForgotten(c: Config, ts: set<Task>, ss: seq<Machine>, es: seq<Event>, i: nat, k: nat,
                                          t: Task, x: nat)
    requires Run(c, ts, ss, es) && i <= k <= |es| && t.user && ss[i].a.gen == ss[k].a.gen
    requires Forgotten(ss[i].a, t, x)
    ensures Forgotten(ss[k].a, t, x)
    decreases k
  {
    hide Next, Start, Groups, Reuses;
    if i < k {
      GenerationsRise(c, ts, ss, es, i, k - 1);
      GenerationsRise(c, ts, ss, es, k - 1, k);
      StaysForgotten(c, ts, ss, es, i, k - 1, t, x);
      StepOf(c, ts, ss, es, k - 1, t);
    }
  }

  /** Two switches to a task in one generation use the same index exactly when the first does not use an
      index of an earlier generation again. */
  lemma IndexStaysIff(c: Config, ts: set<Task>, ss: seq<Machine>, es: seq<Event>, i: nat, j: nat, t: Task)
    requires Run(c, ts, ss, es) && i < j < |es| && t.user && es[i] == es[j] == Switch(t)
    requires ss[i + 1].a.gen == ss[j + 1].a.gen
    ensures Choose(c, ss[i].a, t).1.idx == Choose(c, ss[j].a, t).1.idx <==> !Reuses(ss[i].a, t)
  {
    GenerationsRise(c, ts, ss, es, i + 1, j);
    GenerationsRise(c, ts, ss, es, j, j + 1);
    var x := Choose(c, ss[i].a, t).1.idx;
    assert ss[i + 1] == Next(c, ss[i], es[i]) && ss[j + 1] == Next(c, ss[j], es[j]);
    if Reuses(ss[i].a, t) {
      ReusesIndex(c, ss[i].a, t);
      assert Forgotten(ss[i + 1].a, t, x);
      StaysForgotten(c, ts, ss, es, i + 1, j, t, x);
      StepOf(c, ts, ss, es, j, t);
    } else {
      StoredAfter(c, ss[i], t);
      StaysStored(c, ts, ss, es, i + 1, j, t);
    }
  }

  lemma StoredAfter(c: Config, s: Machine, t: Task)
    requires Sane(c) && t.user && !Reuses(s.a, t)
    ensures var r := SwitchTo(c, s, t); r.a.Of(t) == Id(r.a.gen, Choose(c, s.a, t).1.idx)
  {
  }

  /** All indices have gone to processes, and process n has begun the second generation. */
  ghost predicate Rolled(c: Config, s: Machine) {
    && s.a == Asids(2, {1}, false, 1, s.a.asid) && s.running == Proc(c.n)
    && s.a.Of(Proc(c.n)) == Id(2, 1) && s.a.Of(Proc(2)) == Id(1, 2)
  }

  lemma SecondGeneration(c: Config) returns (ss: seq<Machine>, es: seq<Event>)
    requires Sane(c) && c.n >= 4 && c.limit >= 3
    ensures Run(c, Procs(c.n), ss, es) && Rolled(c, ss[|ss| - 1])
  {
    ss, es := ClimbRun(c, c.n - 1);
    ProcsGrow(c.n);
    MoreTasks(c, Procs(c.n - 1), Procs(c.n), ss, es);
    RollsOver(c, ss[|ss| - 1].a, Proc(c.n));
    hide Run, Choose;
    ss, es := Longer(c, Procs(c.n), ss, es, Proc(c.n));
  }

  /** With four indices or more it happens: process 2 has index 2 again after the first generation, and at
      its next switch in the same generation index 3. */
  lemma IndexChanges(c: Config) returns (ss: seq<Machine>, es: seq<Event>, i: nat, j: nat)
    requires Sane(c) && c.n >= 4 && c.limit >= 3
    ensures Run(c, Procs(c.n), ss, es) && i < j < |es| && es[i] == es[j] == Switch(Proc(2))
    ensures ss[i].a.gen == ss[j + 1].a.gen
    ensures Choose(c, ss[i].a, Proc(2)).1.idx == 2 && Choose(c, ss[j].a, Proc(2)).1.idx == 3
  {
    var p, q, ts := Proc(c.n), Proc(2), Procs(c.n);
    ss, es := SecondGeneration(c);
    assert |ss| == |es| + 1;
    i, j := |es|, |es| + 2;
    hide Run, Choose;
    var s1 := ss[|ss| - 1];
    ReusesIndex(c, s1.a, q);
    ss, es := Longer(c, ts, ss, es, q);
    var s2 := ss[|ss| - 1];
    KeepsCurrent(c, s2.a, p);
    ss, es := Longer(c, ts, ss, es, p);
    var s3 := ss[|ss| - 1];
    TakesNext(c, s3.a, q, 3);
    ss, es := Longer(c, ts, ss, es, q);
  }

  lemma Longer(c: Config, ts: set<Task>, ss: seq<Machine>, es: seq<Event>, t: Task)
    returns (ss': seq<Machine>, es': seq<Event>)
    requires Run(c, ts, ss, es) && t in ts && SwitchTo(c, ss[|ss| - 1], t).a.gen != 0
    ensures ss' == ss + [SwitchTo(c, ss[|ss| - 1], t)] && es' == es + [Switch(t)] && Run(c, ts, ss', es')
  {
    assert Next(c, ss[|ss| - 1], Switch(t)) == SwitchTo(c, ss[|ss| - 1], t);
    Extend(c, ts, ss, es, Switch(t));
    ss', es' := ss + [SwitchTo(c, ss[|ss| - 1], t)], es + [Switch(t)];
  }
}
