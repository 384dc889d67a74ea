/** A task unblocked before its wake-up time: a run of the scheduler from sched_init on that ends
    with a sleeping task running. */
module SchedStall {
  import opened SchedQueues
  import opened SchedRuns

  const IDLE := Task(0, 31)
  const SLEEPER := Task(1, 3)
  const EARLY := Task(2, 5)

  /** What queues 3 and 5, the pending list, the bitmap and the two wake-up times are; queue 31 holds
      the idle task and the other queues are empty. */
  datatype Shape = Shape(three: seq<Task>, five: seq<Task>, pending: seq<Task>, bits: set<nat>, current: Task,
                         sleeper: int, early: int, now: int)

  ghost predicate Has(s: Sched, x: Shape) {
    && |s.ready| == PRIORITIES && s.ready[3] == x.three && s.ready[5] == x.five && s.ready[31] == [IDLE]
    && (forall p | 0 <= p < PRIORITIES && p !in {3, 5, 31} :: s.ready[p] == [])
    && s.pending == x.pending && s.bits == x.bits && s.current == x.current && s.now == x.now
    && s.WakeTime(SLEEPER) == x.sleeper && s.WakeTime(EARLY) == x.early && s.WakeTime(IDLE) == 0
  }

  const START := Shape([], [], [], {31}, IDLE, 0, 0, 1)
  const EARLY_ATTACHED := Shape([], [EARLY], [], {5, 31}, IDLE, 0, 0, 1)
  const EARLY_ASLEEP := Shape([], [], [EARLY], {31}, IDLE, 0, 100, 1)
  const EARLY_BLOCKED := Shape([], [], [], {31}, IDLE, 0, 100, 1)
  const SLEEPER_ATTACHED := Shape([SLEEPER], [], [], {3, 31}, IDLE, 0, 100, 1)
  const SLEEPER_ASLEEP := Shape([], [], [SLEEPER], {31}, IDLE, 50, 100, 1)
  const BEFORE := SLEEPER_ASLEEP.(now := 10)
  const UNBLOCKED := Shape([], [EARLY], [SLEEPER], {5, 31}, IDLE, 50, 100, 10)
  const EARLY_RUNS := Shape([], [], [SLEEPER, EARLY], {5, 31}, EARLY, 50, 100, 20)
  const SLEEPER_DUE := Shape([SLEEPER], [], [EARLY], {3, 5, 31}, EARLY, 50, 100, 60)
  const SLEEPER_RUNS := Shape([], [], [EARLY, SLEEPER], {3, 5, 31}, SLEEPER, 50, 100, 60)
  const ASLEEP_AGAIN := Shape([], [], [EARLY, SLEEPER], {5, 31}, SLEEPER, 200, 100, 60)

  lemma HasPlaced(s: Sched, x: Shape)
    requires Has(s, x) && (x.three == [] || x.three == [SLEEPER]) && (x.five == [] || x.five == [EARLY])
    requires x.pending in {[], [EARLY], [SLEEPER], [SLEEPER, EARLY], [EARLY, SLEEPER]}
    requires (EARLY in x.pending ==> x.five == []) && (SLEEPER in x.pending ==> x.three == [])
    ensures Placed(s)
  {
  }

  // ---------------------------------------------------------------------------------
  // Timely steps

  lemma AttachEarly(s: Sched) returns (r: Sched)
    requires s == Initial(IDLE, 1)
    ensures Step(s, Attached(EARLY), r, IDLE) && Has(r, EARLY_ATTACHED)
  {
    r := Attach(s, EARLY);
    HasPlaced(s, START);
  }

  lemma SleepEarly(s: Sched) returns (r: Sched)
    requires Has(s, EARLY_ATTACHED)
    ensures Step(s, Slept(EARLY, 100), r, IDLE) && Has(r, EARLY_ASLEEP)
  {
    r := Sleep(s, EARLY, 100);
    HasPlaced(s, EARLY_ATTACHED);
    hide Placed;
    assert Without([EARLY], EARLY) == [];
  }

  lemma BlockEarly(s: Sched) returns (r: Sched)
    requires Has(s, EARLY_ASLEEP)
    ensures Step(s, Blocked(EARLY), r, IDLE) && Has(r, EARLY_BLOCKED)
  {
    r := Block(s, EARLY);
    HasPlaced(s, EARLY_ASLEEP);
    hide Placed;
    assert Without([EARLY], EARLY) == [];
  }

  lemma AttachSleeper(s: Sched) returns (r: Sched)
    requires Has(s, EARLY_BLOCKED)
    ensures Step(s, Attached(SLEEPER), r, IDLE) && Has(r, SLEEPER_ATTACHED)
  {
    r := Attach(s, SLEEPER);
    HasPlaced(s, EARLY_BLOCKED);
  }

  lemma SleepSleeper(s: Sched) returns (r: Sched)
    requires Has(s, SLEEPER_ATTACHED)
    ensures Step(s, Slept(SLEEPER, 50), r, IDLE) && Has(r, SLEEPER_ASLEEP)
  {
    r := Sleep(s, SLEEPER, 50);
    HasPlaced(s, SLEEPER_ATTACHED);
    hide Placed;
    assert Without([SLEEPER], SLEEPER) == [];
  }

  lemma TickTen(s: Sched) returns (r: Sched)
    requires Has(s, SLEEPER_ASLEEP)
    ensures Step(s, Ticked(10), r, IDLE) && Has(r, BEFORE)
  {
    r := s.(now := 10);
    HasPlaced(s, SLEEPER_ASLEEP);
  }

  // ---------------------------------------------------------------------------------
  // The early unblocking and what follows

  lemma UnblockEarly(s: Sched) returns (r: Sched)
    requires Has(s, BEFORE)
    ensures Step(s, Unblocked(EARLY), r, IDLE) && !s.Expired(EARLY) && Has(r, UNBLOCKED)
  {
    r := Unblock(s, EARLY);
    HasPlaced(s, BEFORE);
  }

  lemma FirstIs(bits: set<nat>, p: nat)
    requires p in bits && p < PRIORITIES && forall q | q in bits :: p <= q
    ensures First(bits, 0) == p
  {
    assert First(bits, 0) in bits;
  }

  lemma NobodyWoken(s: Sched)
    requires Has(s, UNBLOCKED)
    ensures Has(Check(s, [SLEEPER], [20]), UNBLOCKED.(now := 20))
  {
    assert [SLEEPER][1..] == [] && [20][1..] == [];
    assert Check(s, [SLEEPER], [20]) == Wake(s, SLEEPER, 20);
  }

  lemma EarlyTaken(s: Sched) returns (r: Sched)
    requires Has(s, UNBLOCKED)
    ensures Step(s, Scheduled([20]), r, IDLE) && Has(r, EARLY_RUNS)
  {
    r := Schedule(s, [20]);
    HasPlaced(s, UNBLOCKED);
    NobodyWoken(s);
    hide Placed, Check;
    FirstIs(Check(s, s.pending, [20]).bits, 5);
    hide First;
  }

  lemma SleeperWoken(s: Sched)
    requires Has(s, EARLY_RUNS)
    ensures Has(Check(s, [SLEEPER, EARLY], [60, 60]), SLEEPER_DUE)
  {
    var c := Wake(s, SLEEPER, 60);
    assert [SLEEPER, EARLY][1..] == [EARLY] && [EARLY][1..] == [] && [60, 60][1..] == [60] && [60][1..] == [];
    assert Without([SLEEPER, EARLY], SLEEPER) == [EARLY];
    assert Has(c, SLEEPER_DUE);
    assert Check(s, [SLEEPER, EARLY], [60, 60]) == Check(c, [EARLY], [60]);
    assert Check(c, [EARLY], [60]) == Wake(c, EARLY, 60);
  }

  lemma SleeperTaken(s: Sched) returns (r: Sched)
    requires Has(s, EARLY_RUNS)
    ensures Step(s, Scheduled([60, 60]), r, IDLE) && Has(r, SLEEPER_RUNS)
  {
    r := Schedule(s, [60, 60]);
    HasPlaced(s, EARLY_RUNS);
    SleeperWoken(s);
    hide Placed, Check;
    FirstIs(Check(s, s.pending, [60, 60]).bits, 3);
    hide First;
  }

  lemma SleeperSleeps(s: Sched) returns (r: Sched)
    requires Has(s, SLEEPER_RUNS)
    ensures Step(s, Slept(SLEEPER, 200), r, IDLE) && Has(r, ASLEEP_AGAIN)
  {
    r := Sleep(s, SLEEPER, 200);
    HasPlaced(s, SLEEPER_RUNS);
    hide Placed;
    assert [EARLY, SLEEPER][1..] == [SLEEPER] && [SLEEPER][1..] == [];
    assert Without([EARLY, SLEEPER], SLEEPER) == [EARLY];
  }

  lemma StillAsleep(s: Sched)
    requires Has(s, ASLEEP_AGAIN)
    ensures Has(Check(s, [EARLY, SLEEPER], [70, 70]), ASLEEP_AGAIN.(now := 70))
  {
    var c := Wake(s, EARLY, 70);
    assert [EARLY, SLEEPER][1..] == [SLEEPER] && [SLEEPER][1..] == [] && [70, 70][1..] == [70] && [70][1..] == [];
    assert Check(s, [EARLY, SLEEPER], [70, 70]) == Check(c, [SLEEPER], [70]);
    assert Check(c, [SLEEPER], [70]) == Wake(c, SLEEPER, 70);
  }

  lemma Stalled(s: Sched) returns (r: Sched)
    requires Has(s, ASLEEP_AGAIN)
    ensures Step(s, Scheduled([70, 70]), r, IDLE)
    ensures r.current == SLEEPER && !r.Expired(SLEEPER) && Ready(r, IDLE) && r.Expired(IDLE)
  {
    r := Schedule(s, [70, 70]);
    HasPlaced(s, ASLEEP_AGAIN);
    StillAsleep(s);
    hide Placed, Check;
    FirstIs(Check(s, s.pending, [70, 70]).bits, 5);
  }

  // ---------------------------------------------------------------------------------
  // The run

  /** A run from sched_init on to state s. */
  ghost predicate LeadsTo(ss: seq<Sched>, es: seq<Event>, s: Sched) {
    Run(ss, es, IDLE) && ss[0] == Initial(IDLE, 1) && ss[|es|] == s
  }

  lemma Longer(ss: seq<Sched>, es: seq<Event>, s: Sched, e: Event, r: Sched)
    returns (ss': seq<Sched>, es': seq<Event>)
    requires LeadsTo(ss, es, s) && Step(s, e, r, IDLE)
    ensures LeadsTo(ss', es', r)
  {
    hide Step, Initial;
    ss', es' := ss + [r], es + [e];
  }

  lemma BeforeUnblock() returns (ss: seq<Sched>, es: seq<Event>, s: Sched)
    ensures LeadsTo(ss, es, s) && Has(s, BEFORE)
  {
    var i := Initial(IDLE, 1);
    ss, es := [i], [];
    assert LeadsTo(ss, es, i);
    hide Step, Has, LeadsTo, Initial;
    var a := AttachEarly(i);
    ss, es := Longer(ss, es, i, Attached(EARLY), a);
    var b := SleepEarly(a);
    ss, es := Longer(ss, es, a, Slept(EARLY, 100), b);
    var c := BlockEarly(b);
    ss, es := Longer(ss, es, b, Blocked(EARLY), c);
    var d := AttachSleeper(c);
    ss, es := Longer(ss, es, c, Attached(SLEEPER), d);
    var e := SleepSleeper(d);
    ss, es := Longer(ss, es, d, Slept(SLEEPER, 50), e);
    s := TickTen(e);
    ss, es := Longer(ss, es, e, Ticked(10), s);
  }

  lemma AfterUnblock(s: Sched) returns (ss: seq<Sched>, es: seq<Event>)
    requires Has(s, UNBLOCKED)
    ensures |es| == 4 && Run(ss, es, IDLE) && ss[0] == s && es[3].Scheduled?
    ensures var r := ss[4]; !r.Expired(r.current) && Ready(r, IDLE) && r.Expired(IDLE)
  {
    hide Step, Has, Ready;
    var a := EarlyTaken(s);
    var b := SleeperTaken(a);
    var c := SleeperSleeps(b);
    var d := Stalled(c);
    ss, es := Four(s, a, b, c, d, Scheduled([20]), Scheduled([60, 60]), Slept(SLEEPER, 200), Scheduled([70, 70]));
  }

  lemma Four(s: Sched, a: Sched, b: Sched, c: Sched, d: Sched, ea: Event, eb: Event, ec: Event, ed: Event)
    returns (ss: seq<Sched>, es: seq<Event>)
    requires Step(s, ea, a, IDLE) && Step(a, eb, b, IDLE) && Step(b, ec, c, IDLE) && Step(c, ed, d, IDLE)
    ensures Run(ss, es, IDLE) && |es| == 4 && ss[0] == s && ss[4] == d && es[3] == ed
  {
    hide Step;
    ss, es := [s, a, b, c, d], [ea, eb, ec, ed];
    forall k | 0 <= k < 4 ensures Step(ss[k], es[k], ss[k + 1], IDLE) {
      assert k in {0, 1, 2, 3};
    }
  }

  lemma Joined(ss1: seq<Sched>, es1: seq<Event>, e: Event, ss2: seq<Sched>, es2: seq<Event>)
    requires Run(ss1, es1, IDLE) && Run(ss2, es2, IDLE) && Step(ss1[|es1|], e, ss2[0], IDLE)
    ensures Run(ss1 + ss2, es1 + [e] + es2, IDLE)
  {
    hide Step;
    var ss, es := ss1 + ss2, es1 + [e] + es2;
    forall k | 0 <= k < |es| ensures Step(ss[k], es[k], ss[k + 1], IDLE) {
      if k > |es1| {
        var j := k - |es1| - 1;
        assert Step(ss2[j], es2[j], ss2[j + 1], IDLE);
      }
    }
  }

  /** A run from sched_init on in which task EARLY is unblocked, at step n, before its wake-up time:
      the bit of the queue it leaves empty stays set, and at the end schedule leaves a sleeping task
      running although the idle task is ready. */
  lemma EarlyUnblockStalls() returns (ss: seq<Sched>, es: seq<Event>, n: nat)
    ensures Run(ss, es, IDLE) && ss[0] == Initial(IDLE, 1) && |es| == n + 5 && es[n + 4].Scheduled?
    ensures es[n] == Unblocked(EARLY) && !Timely(ss[n], es[n])
    ensures var r := ss[n + 5]; !r.Expired(r.current) && Ready(r, IDLE) && r.Expired(IDLE)
  {
    var ss1, es1, s := BeforeUnblock();
    var a := UnblockEarly(s);
    var ss2, es2 := AfterUnblock(a);
    hide Step, Has, Initial, Ready;
    Joined(ss1, es1, Unblocked(EARLY), ss2, es2);
    ss, es, n := ss1 + ss2, es1 + [Unblocked(EARLY)] + es2, |es1|;
  }
}
