/** schedule and whole runs of the scheduler: who runs next, and how long a ready task waits. */
module SchedRuns {
  import opened Basics
  import opened SchedQueues

  /** The bitmap search finds the non-empty queue of best priority. */
  lemma BestQueue(c: Sched, idle: Task)
    requires Placed(c) && Exact(c) && Ready(c, idle)
    ensures var p := First(c.bits, 0);
            && c.ready[p] != [] && (forall t | Ready(c, t) :: p <= t.prio)
            && (forall i | 0 <= i < |c.ready[p]| :: Ready(c, c.ready[p][i]) && c.ready[p][i].prio == p)
  {
    assert idle.prio in c.bits && First(c.bits, 0) in c.bits;
    forall t | Ready(c, t) ensures First(c.bits, 0) <= t.prio {
      assert t.prio in c.bits;
    }
  }

  /** Moving ready task i of queue p to the pending list and making it current. */
  ghost function Take(c: Sched, p: nat, i: nat): (r: Sched)
    requires p < |c.ready| && i < |c.ready[p]|
  {
    var q := c.ready[p];
    c.(ready := c.ready[p := q[..i] + q[i + 1..]], pending := c.pending + [q[i]], current := q[i])
  }

  lemma ExactLoose(c: Sched)
    requires Exact(c)
    ensures Loose(c)
  {
    assert forall p | p in c.bits :: c.ready[p] != [];
  }

  lemma DropOne(q: seq<Task>, i: nat)
    requires NoDup(q) && i < |q|
    ensures NoDup(q[..i] + q[i + 1..])
    ensures forall u :: u in q[..i] + q[i + 1..] <==> u in q && u != q[i]
  {
    var rest := q[..i] + q[i + 1..];
    assert forall k | 0 <= k < |rest| :: rest[k] == if k < i then q[k] else q[k + 1];
    forall u | u in q && u != q[i] ensures u in rest {
      var k :| 0 <= k < |q| && q[k] == u;
      assert rest[if k < i then k else k - 1] == u;
    }
  }

  lemma TakenPlaced(c: Sched, p: nat, i: nat)
    requires Placed(c) && p < PRIORITIES && i < |c.ready[p]|
    ensures Placed(Take(c, p, i))
  {
    var r, q := Take(c, p, i), c.ready[p];
    DropOne(q, i);
    assert q[i] !in c.pending;
    assert forall k | 0 <= k < PRIORITIES && k != p :: r.ready[k] == c.ready[k];
  }

  /** Switching to a ready task keeps the bitmap covered exactly when the task is due, leaves another
      task in its queue, or another due task of its priority is pending. */
  lemma TakenLooseIff(c: Sched, p: nat, i: nat)
    requires Exact(c) && p < PRIORITIES && i < |c.ready[p]| && c.ready[p][i].prio == p
    ensures Loose(Take(c, p, i)) <==>
            |c.ready[p]| > 1 || c.Expired(c.ready[p][i]) || exists t :: t in c.pending && t.prio == p && c.Expired(t)
  {
    var r, t := Take(c, p, i), c.ready[p][i];
    assert forall k | 0 <= k < PRIORITIES && k != p :: r.ready[k] == c.ready[k];
    assert |r.ready[p]| == |c.ready[p]| - 1;
    assert t in r.pending && forall u | u in c.pending :: u in r.pending;
    assert forall u :: r.WakeTime(u) == c.WakeTime(u);
    if Loose(r) && |c.ready[p]| == 1 {
      assert Stands(r, r.pending, r.now, p);
    }
    if c.Expired(t) || exists u :: u in c.pending && u.prio == p && c.Expired(u) {
      assert Stands(r, r.pending, r.now, p);
    }
  }

  /** The task that schedule would take next, if any, is due, leaves another task in its queue, or leaves
      another due task of its priority pending. */
  ghost predicate SafeSwitch(c: Sched)
    requires |c.ready| == PRIORITIES
  {
    var p := First(c.bits, 0);
    var q, i := c.ready[p], Pick(c.ready[p], c.current);
    i < |q| ==> |q| > 1 || c.Expired(q[i]) || exists t :: t in c.pending && t.prio == p && c.Expired(t)
  }

  /** From an exact bitmap, the switch leaves the bitmap covered exactly when it is safe. */
  lemma DispatchLooseIff(c: Sched)
    requires Placed(c) && Exact(c)
    ensures Loose(Dispatch(c, First(c.bits, 0))) <==> SafeSwitch(c)
  {
    var p := First(c.bits, 0);
    var i := Pick(c.ready[p], c.current);
    if i < |c.ready[p]| {
      assert c.ready[p][i] in c.ready[p];
      TakenLooseIff(c, p, i);
      assert Dispatch(c, p) == Take(c, p, i);
    } else {
      ExactLoose(c);
    }
  }

  /** It takes a task of the best priority among all ready ones, and is safe when these are due. */
  lemma DispatchBest(c: Sched, idle: Task)
    requires Placed(c) && Exact(c) && Ready(c, idle)
    ensures var r := Dispatch(c, First(c.bits, 0));
            Ready(c, r.current) && (forall t | Ready(c, t) :: r.current.prio <= t.prio)
    ensures Due(c) ==> Due(Dispatch(c, First(c.bits, 0))) && SafeSwitch(c)
  {
    BestQueue(c, idle);
    var p := First(c.bits, 0);
    var i, r := Pick(c.ready[p], c.current), Dispatch(c, p);
    hide Placed, Exact, First;
    if i < |c.ready[p]| {
      assert r.current == c.ready[p][i];
    } else {
      assert c.ready[p][0] == c.current && r == c;
    }
    forall u | Ready(r, u) ensures Ready(c, u) {
    }
  }

  ghost predicate Covered(s: Sched) {
    Placed(s) && Loose(s)
  }

  /** t is ready, or pending and due when its turn comes. */
  ghost predicate Eligible(s: Sched, clock: seq<int>, t: Task)
    requires |clock| == |s.pending|
  {
    Ready(s, t) || exists i :: 0 <= i < |clock| && s.pending[i] == t && s.WakeTime(t) < clock[i]
  }

  /** schedule, from every covered bitmap, whether or not all ready tasks are due: no task leaves the
      lists, the current task afterwards is one that was ready or due with the least priority number
      among all such tasks, and the bitmap stays covered exactly when the switch is safe.  When all ready
      tasks are due, it is, and they still are. */
  lemma ScheduleRunsBest(s: Sched, clock: seq<int>, idle: Task)
    requires Covered(s) && Listed(s, idle) && s.Expired(idle) && Readings(s, clock)
    ensures var r := Schedule(s, clock);
            && Placed(r) && s.now <= r.now && r.wake == s.wake
            && (forall t :: Listed(r, t) <==> Listed(s, t))
            && Eligible(s, clock, r.current)
            && (forall t | Eligible(s, clock, t) :: r.current.prio <= t.prio)
            && (Covered(r) <==> SafeSwitch(Check(s, s.pending, clock)))
            && (Due(s) ==> Inv(r, idle) && r.Expired(r.current))
  {
    var c := Check(s, s.pending, clock);
    LooseExact(s, clock);
    CheckKeeps(s, s.pending, clock);
    forall t ensures (Listed(c, t) <==> Listed(s, t)) && (Ready(c, t) <==> Eligible(s, clock, t)) {
      CheckMoves(s, s.pending, clock, t);
      CheckReady(s, clock, t);
    }
    WokenByCheck(s, clock, idle);
    hide Check, Placed, Loose, Exact, Eligible, Readings, SafeSwitch;
    DispatchBest(c, idle);
    DispatchLists(c);
    DispatchLooseIff(c);
  }

  lemma WokenByCheck(s: Sched, clock: seq<int>, t: Task)
    requires Placed(s) && Readings(s, clock) && Listed(s, t) && s.Expired(t)
    ensures Ready(Check(s, s.pending, clock), t)
  {
    CheckMoves(s, s.pending, clock, t);
    if t in s.pending {
      var i :| 0 <= i < |s.pending| && s.pending[i] == t;
      assert s.now <= clock[i];
    }
  }

  lemma DispatchLists(c: Sched)
    requires Placed(c)
    ensures Placed(Dispatch(c, First(c.bits, 0)))
    ensures var r := Dispatch(c, First(c.bits, 0));
            && r.now == c.now && r.wake == c.wake && forall t :: Listed(r, t) <==> Listed(c, t)
  {
    var p := First(c.bits, 0);
    var i := Pick(c.ready[p], c.current);
    if i < |c.ready[p]| {
      TakenPlaced(c, p, i);
      DropOne(c.ready[p], i);
    }
  }

  // ---------------------------------------------------------------------------------
  // Runs

  /** sched_init: empty lists, then the idle task attached and current. */
  function Initial(idle: Task, now: int): (s: Sched)
    requires idle.prio < PRIORITIES
  {
    Attach(Sched(seq(PRIORITIES, _ => []), [], {}, idle, map[], now), idle)
  }

  datatype Event =
    | Attached(task: Task)
    | Unblocked(task: Task)
    | Blocked(task: Task)
    | Slept(task: Task, until: int)
    | Ticked(time: int)
    | Scheduled(clock: seq<int>)

  /** Tasks made ready are on no list; the idle task neither blocks nor sleeps; the clock never goes
      back. */
  ghost predicate Legal(s: Sched, e: Event, idle: Task) {
    match e
    case Attached(t) => t.prio < PRIORITIES && !Listed(s, t)
    case Unblocked(t) => t.prio < PRIORITIES && !Listed(s, t)
    case Blocked(t) => t.prio < PRIORITIES && t != idle
    case Slept(t, _) => t.prio < PRIORITIES && t != idle
    case Ticked(now) => s.now <= now
    case Scheduled(clock) => Readings(s, clock)
  }

  ghost function Next(s: Sched, e: Event, idle: Task): (r: Sched)
    requires Placed(s) && Legal(s, e, idle)
  {
    match e
    case Attached(t) => Attach(s, t)
    case Unblocked(t) => Unblock(s, t)
    case Blocked(t) => Block(s, t)
    case Slept(t, w) => Sleep(s, t, w)
    case Ticked(now) => s.(now := now)
    case Scheduled(clock) => Schedule(s, clock)
  }

  ghost predicate Step(s: Sched, e: Event, r: Sched, idle: Task) {
    Placed(s) && Legal(s, e, idle) && r == Next(s, e, idle)
  }

  ghost predicate Run(ss: seq<Sched>, es: seq<Event>, idle: Task) {
    |ss| == |es| + 1 && forall k | 0 <= k < |es| :: Step(ss[k], es[k], ss[k + 1], idle)
  }

  lemma InitialInv(idle: Task, now: int)
    requires idle.prio < PRIORITIES && 0 < now
    ensures Inv(Initial(idle, now), idle)
    ensures var s := Initial(idle, now);
            && (forall p | 0 <= p < PRIORITIES :: s.ready[p] == if p == idle.prio then [idle] else [])
            && s.pending == [] && s.bits == {idle.prio} && s.current == idle && s.wake == map[] && s.now == now
  {
    ExactLoose(Initial(idle, now));
  }

  /** A task that e makes ready is due. */
  predicate Timely(s: Sched, e: Event) {
    match e
    case Attached(t) => s.Expired(t)
    case Unblocked(t) => s.Expired(t)
    case _ => true
  }

  /** A step keeps the invariant exactly when it is timely. */
  lemma StepKeepsIff(s: Sched, e: Event, r: Sched, idle: Task)
    requires Inv(s, idle) && Step(s, e, r, idle)
    ensures Inv(r, idle) <==> Timely(s, e)
  {
    hide Inv, Placed, Loose, Due, Attach, Unblock, Block, Sleep, Schedule;
    match e
    case Attached(t) => AttachKeepsIff(s, t, idle);
    case Unblocked(t) => AttachKeepsIff(s, t, idle);
    case Blocked(t) => BlockKeeps(s, t, idle);
    case Slept(t, w) => SleepKeeps(s, t, w, idle);
    case Ticked(now) => TickKeeps(s, now, idle);
    case Scheduled(clock) => SchedulesInv(s, clock, idle);
  }

  lemma SchedulesInv(s: Sched, clock: seq<int>, idle: Task)
    requires Inv(s, idle) && Readings(s, clock)
    ensures Inv(Schedule(s, clock), idle)
  {
    ScheduleRunsBest(s, clock, idle);
  }

  /** Every step, timely or not, leaves each task on at most one list, a ready one on the queue of its
      priority. */
  lemma StepPlaced(s: Sched, e: Event, r: Sched, idle: Task)
    requires Step(s, e, r, idle)
    ensures Placed(r)
  {
    match e
    case Attached(t) => AttachPlaced(s, t);
    case Unblocked(t) => AttachPlaced(s, t);
    case Blocked(t) => BlockPlaced(s, t);
    case Slept(t, w) => BlockPlaced(s, t); SleepPlaced(Block(s, t), t, w);
    case Ticked(now) => assert Placed(s.(now := now));
    case Scheduled(clock) => SchedulePlaced(s, clock);
  }

  lemma BlockPlaced(s: Sched, t: Task)
    requires Placed(s) && t.prio < PRIORITIES
    ensures Placed(Block(s, t)) && !Listed(Block(s, t), t)
  {
    RemovePlaced(s, t);
  }

  lemma SleepPlaced(b: Sched, t: Task, w: int)
    requires Placed(b) && !Listed(b, t) && t.prio < PRIORITIES
    ensures Placed(b.(pending := b.pending + [t], wake := b.wake[t := w]))
  {
  }

  lemma SchedulePlaced(s: Sched, clock: seq<int>)
    requires Placed(s) && |clock| == |s.pending|
    ensures Placed(Schedule(s, clock))
  {
    CheckPlaced(s, s.pending, clock);
    DispatchLists(Check(s, s.pending, clock));
  }

  lemma {:induction false} TimelyKeeps(ss: seq<Sched>, es: seq<Event>, idle: Task, k: nat)
    requires Run(ss, es, idle) && k <= |es| && Inv(ss[0], idle)
    requires forall n | 0 <= n < k :: Timely(ss[n], es[n])
    ensures Inv(ss[k], idle)
  {
    hide Inv, Step, Timely;
    if k > 0 {
      TimelyKeeps(ss, es, idle, k - 1);
      StepKeepsIff(ss[k - 1], es[k - 1], ss[k], idle);
    }
  }

  /** Over every run from sched_init on, the invariant holds in every state exactly when every task
      was due when it was made ready. */
  lemma RunKeepsInvIff(ss: seq<Sched>, es: seq<Event>, idle: Task, now: int)
    requires idle.prio < PRIORITIES && 0 < now && Run(ss, es, idle) && ss[0] == Initial(idle, now)
    ensures (forall k | 0 <= k < |ss| :: Inv(ss[k], idle)) <==> (forall k | 0 <= k < |es| :: Timely(ss[k], es[k]))
  {
    InitialInv(idle, now);
    hide Inv, Initial, Step, Timely;
    if forall k | 0 <= k < |es| :: Timely(ss[k], es[k]) {
      forall k | 0 <= k < |ss| ensures Inv(ss[k], idle) {
        TimelyKeeps(ss, es, idle, k);
      }
    }
    if forall k | 0 <= k < |ss| :: Inv(ss[k], idle) {
      forall k | 0 <= k < |es| ensures Timely(ss[k], es[k]) {
        StepKeepsIff(ss[k], es[k], ss[k + 1], idle);
      }
    }
  }

  // ---------------------------------------------------------------------------------
  // The bitmap, with tasks made ready early too

  /** If e is a call of schedule, its switch is safe. */
  ghost predicate Safe(s: Sched, e: Event) {
    e.Scheduled? ==> Placed(s) && |e.clock| == |s.pending| && SafeSwitch(Check(s, s.pending, e.clock))
  }

  /** A step, timely or not, leaves the bitmap covered exactly when it is safe. */
  lemma StepLooseIff(s: Sched, e: Event, r: Sched, idle: Task)
    requires Step(s, e, r, idle) && Loose(s)
    ensures Placed(r) && (Loose(r) <==> Safe(s, e))
  {
    StepPlaced(s, e, r, idle);
    hide Placed, Loose, Attach, Unblock, Block, SafeSwitch;
    match e
    case Attached(t) => AttachLoose(s, t);
    case Unblocked(t) => AttachLoose(s, t);
    case Blocked(t) => BlockLoose(s, t);
    case Slept(t, w) => BlockLoose(s, t); BlockPlaced(s, t); SleepLoose(s, t, w);
    case Ticked(now) => TickLoose(s, now);
    case Scheduled(clock) => ScheduleLooseIff(s, clock);
  }

  lemma SleepLoose(s: Sched, t: Task, w: int)
    requires Placed(s) && t.prio < PRIORITIES && Placed(Block(s, t)) && Loose(Block(s, t)) && !Listed(Block(s, t), t)
    ensures |Sleep(s, t, w).ready| == PRIORITIES && Loose(Sleep(s, t, w))
  {
    PendLoose(Block(s, t), t, w);
  }

  lemma ScheduleLooseIff(s: Sched, clock: seq<int>)
    requires Placed(s) && Loose(s) && Readings(s, clock)
    ensures Loose(Schedule(s, clock)) <==> SafeSwitch(Check(s, s.pending, clock))
  {
    LooseExact(s, clock);
    CheckKeeps(s, s.pending, clock);
    DispatchLooseIff(Check(s, s.pending, clock));
  }

  /** As long as tasks are made ready in time, switches are safe. */
  lemma TimelySafe(s: Sched, e: Event, r: Sched, idle: Task)
    requires Inv(s, idle) && Step(s, e, r, idle) && Timely(s, e)
    ensures Safe(s, e) && Inv(r, idle)
  {
    StepKeepsIff(s, e, r, idle);
    StepLooseIff(s, e, r, idle);
  }

  lemma {:induction false} SafeKeeps(ss: seq<Sched>, es: seq<Event>, idle: Task, k: nat)
    requires Run(ss, es, idle) && k <= |es| && Covered(ss[0])
    requires forall n | 0 <= n < k :: Safe(ss[n], es[n])
    ensures Covered(ss[k])
  {
    if k > 0 {
      SafeKeeps(ss, es, idle, k - 1);
      hide Step, Safe, Placed, Loose;
      StepLooseIff(ss[k - 1], es[k - 1], ss[k], idle);
    }
  }

  /** Over every run from sched_init on, timely or not: the bitmap is covered in every state, so that
      every pending check makes it exact, exactly when every switch is safe. */
  lemma RunLooseIff(ss: seq<Sched>, es: seq<Event>, idle: Task, now: int)
    requires idle.prio < PRIORITIES && Run(ss, es, idle) && ss[0] == Initial(idle, now)
    ensures (forall k | 0 <= k < |ss| :: Covered(ss[k])) <==>
            (forall k | 0 <= k < |es| :: Safe(ss[k], es[k]))
  {
    ExactLoose(Initial(idle, now));
    assert Covered(ss[0]);
    hide Initial, Step, Safe, Placed, Loose;
    if forall k | 0 <= k < |es| :: Safe(ss[k], es[k]) {
      forall k | 0 <= k < |ss| ensures Covered(ss[k]) {
        SafeKeeps(ss, es, idle, k);
      }
    }
    if forall k | 0 <= k < |ss| :: Covered(ss[k]) {
      forall k | 0 <= k < |es| ensures Safe(ss[k], es[k]) {
        StepLooseIff(ss[k], es[k], ss[k + 1], idle);
      }
    }
  }

  /** The idle task is on a list and due. */
  ghost predicate HasIdle(s: Sched, idle: Task) {
    Placed(s) && Listed(s, idle) && s.Expired(idle)
  }

  lemma StepHasIdle(s: Sched, e: Event, r: Sched, idle: Task)
    requires Step(s, e, r, idle) && HasIdle(s, idle)
    ensures HasIdle(r, idle)
  {
    StepPlaced(s, e, r, idle);
    match e
    case Attached(t) =>
    case Unblocked(t) =>
    case Blocked(t) =>
    case Slept(t, w) =>
    case Ticked(now) =>
    case Scheduled(clock) => ScheduleLists(s, clock, idle);
  }

  lemma ScheduleLists(s: Sched, clock: seq<int>, t: Task)
    requires Placed(s) && Readings(s, clock)
    ensures var r := Schedule(s, clock); r.now >= s.now && r.wake == s.wake && (Listed(r, t) <==> Listed(s, t))
  {
    CheckKeeps(s, s.pending, clock);
    CheckMoves(s, s.pending, clock, t);
    hide Check;
    DispatchLists(Check(s, s.pending, clock));
  }

  lemma {:induction false} RunHasIdle(ss: seq<Sched>, es: seq<Event>, idle: Task, k: nat)
    requires Run(ss, es, idle) && k <= |es| && HasIdle(ss[0], idle)
    ensures HasIdle(ss[k], idle)
  {
    if k > 0 {
      RunHasIdle(ss, es, idle, k - 1);
      hide Step, HasIdle;
      StepHasIdle(ss[k - 1], es[k - 1], ss[k], idle);
    }
  }

  /** Over every run from sched_init on in which all switches before step k are safe, a call of schedule at
      step k leaves a task running that was ready or due, with the least priority number of all such. */
  lemma SafeRunsBest(ss: seq<Sched>, es: seq<Event>, idle: Task, now: int, k: nat)
    requires idle.prio < PRIORITIES && 0 < now && Run(ss, es, idle) && ss[0] == Initial(idle, now)
    requires k < |es| && es[k].Scheduled? && forall n | 0 <= n < k :: Safe(ss[n], es[n])
    ensures |es[k].clock| == |ss[k].pending| && Eligible(ss[k], es[k].clock, ss[k + 1].current)
    ensures forall t | Eligible(ss[k], es[k].clock, t) :: ss[k + 1].current.prio <= t.prio
  {
    ExactLoose(Initial(idle, now));
    SafeKeeps(ss, es, idle, k);
    RunHasIdle(ss, es, idle, k);
    assert Step(ss[k], es[k], ss[k + 1], idle);
    hide Safe, Eligible, Initial, Loose, Schedule;
    ScheduleRunsBest(ss[k], es[k].clock, idle);
  }

  // ---------------------------------------------------------------------------------
  // Waiting

  /** x is at place i of its ready queue. */
  ghost predicate Waits(s: Sched, x: Task, i: nat) {
    x.prio < |s.ready| && i < |s.ready[x.prio]| && s.ready[x.prio][i] == x
  }

  /** e takes neither x off its queue nor another task to the head of it, and a call of schedule
      finds no task of better priority due. */
  ghost predicate Undisturbed(s: Sched, e: Event, x: Task) {
    match e
    case Unblocked(t) => t.prio != x.prio
    case Blocked(t) => t != x
    case Slept(t, _) => t != x
    case Scheduled(clock) =>
      Placed(s) && |clock| == |s.pending| && First(Check(s, s.pending, clock).bits, 0) == x.prio
    case _ => true
  }

  /** From a covered bitmap, schedule looks at the queue of a ready task exactly when no ready task, and no
      pending task that is due when its turn comes, has a better priority. */
  lemma UndisturbedIff(s: Sched, clock: seq<int>, x: Task)
    requires Covered(s) && Readings(s, clock) && Ready(s, x)
    ensures Undisturbed(s, Scheduled(clock), x) <==> forall t | Eligible(s, clock, t) :: x.prio <= t.prio
  {
    var c := Check(s, s.pending, clock);
    LooseExact(s, clock);
    CheckKeeps(s, s.pending, clock);
    forall t ensures Ready(c, t) <==> Eligible(s, clock, t) {
      CheckReady(s, clock, t);
    }
    hide Check, Loose, Readings, Eligible;
    BestQueue(c, x);
    var p := First(c.bits, 0);
    assert Ready(c, c.ready[p][0]);
  }

  /** The same of a whole step, by tasks alone. */
  ghost predicate NothingBetter(s: Sched, e: Event, x: Task) {
    if e.Scheduled? then |e.clock| == |s.pending| && forall t | Eligible(s, e.clock, t) :: x.prio <= t.prio
    else Undisturbed(s, e, x)
  }

  lemma WithoutPlace(q: seq<Task>, t: Task, i: nat) returns (j: nat)
    requires i < |q| && q[i] != t
    ensures j <= i && j < |Without(q, t)| && Without(q, t)[j] == q[i]
  {
    if i == 0 {
      j := 0;
    } else {
      var k := WithoutPlace(q[1..], t, i - 1);
      j := if q[0] == t then k else k + 1;
    }
  }

  /** Only schedule moves a waiting task on: it takes it, or brings it one place nearer. */
  lemma WaitStep(s: Sched, e: Event, r: Sched, idle: Task, x: Task, i: nat) returns (j: nat)
    requires Step(s, e, r, idle) && Undisturbed(s, e, x)
    requires Waits(s, x, i) && s.current != x
    ensures e.Scheduled? ==> r.current == x || (j < i && Waits(r, x, j))
    ensures !e.Scheduled? ==> r.current == s.current && j <= i && Waits(r, x, j)
  {
    j := i;
    match e
    case Attached(t) =>
    case Unblocked(t) =>
    case Blocked(t) => j := WithoutPlace(s.ready[x.prio], t, i);
    case Slept(t, w) => j := WithoutPlace(s.ready[x.prio], t, i);
    case Ticked(now) =>
    case Scheduled(clock) => j := ScheduleWait(s, clock, x, i);
  }

  lemma ScheduleWait(s: Sched, clock: seq<int>, x: Task, i: nat) returns (j: nat)
    requires Undisturbed(s, Scheduled(clock), x)
    requires Waits(s, x, i) && s.current != x
    ensures var r := Schedule(s, clock); r.current == x || (j < i && Waits(r, x, j))
  {
    var c := Check(s, s.pending, clock);
    CheckCurrent(s, s.pending, clock);
    CheckAppends(s, s.pending, clock, x.prio);
    hide Check, Placed;
    assert Waits(c, x, i);
    j := DispatchWait(c, x, i);
  }

  lemma DispatchWait(c: Sched, x: Task, i: nat) returns (j: nat)
    requires Waits(c, x, i) && c.current != x && First(c.bits, 0) == x.prio
    ensures var r := Dispatch(c, x.prio); r.current == x || (j < i && Waits(r, x, j))
  {
    var q := c.ready[x.prio];
    var m := Pick(q, c.current);
    assert m <= i;
    j := if m < i then i - 1 else 0;
    assert m < i ==> (q[..m] + q[m + 1..])[i - 1] == x;
  }

  /** A task unblocked before others of its priority runs next, if nothing better is due. */
  lemma UnblockedRunsNext(s: Sched, t: Task, clock: seq<int>)
    requires Placed(s) && t.prio < PRIORITIES && !Listed(s, t) && s.current != t
    requires Undisturbed(Unblock(s, t), Scheduled(clock), t)
    ensures Schedule(Unblock(s, t), clock).current == t
  {
    AttachPlaced(s, t);
    var r := Unblock(s, t);
    assert Waits(r, t, 0);
    hide Unblock, Schedule, Undisturbed;
    var j := ScheduleWait(r, clock, t, 0);
  }

  function Schedules(es: seq<Event>): (n: nat) {
    if |es| == 0 then 0 else (if es[0].Scheduled? then 1 else 0) + Schedules(es[1..])
  }

  /** Bounded waiting: a task at place i of the best ready queue becomes the current task within
      i + 1 calls of schedule. */
  lemma {:induction false} BoundedWaiting(ss: seq<Sched>, es: seq<Event>, idle: Task, x: Task, i: nat)
    returns (k: nat)
    requires Run(ss, es, idle)
    requires forall n | 0 <= n < |es| :: Undisturbed(ss[n], es[n], x)
    requires Waits(ss[0], x, i) && ss[0].current != x && i < Schedules(es)
    ensures k < |es| && es[k].Scheduled? && ss[k + 1].current == x
    decreases |es|
  {
    hide Step, Undisturbed, Waits;
    assert Step(ss[0], es[0], ss[1], idle);
    var j := WaitStep(ss[0], es[0], ss[1], idle, x, i);
    if es[0].Scheduled? && ss[1].current == x {
      k := 0;
    } else {
      assert forall n | 0 <= n < |es| - 1 :: es[1..][n] == es[n + 1] && ss[1..][n] == ss[n + 1];
      k := BoundedWaiting(ss[1..], es[1..], idle, x, j);
      k := k + 1;
    }
  }

  /** Bounded waiting from a covered bitmap with safe switches: it is enough that no task of better
      priority is ready or comes due. */
  lemma {:induction false} NextOfBestRuns(ss: seq<Sched>, es: seq<Event>, idle: Task, x: Task, i: nat)
    returns (k: nat)
    requires Run(ss, es, idle) && Covered(ss[0])
    requires forall n | 0 <= n < |es| :: Safe(ss[n], es[n]) && NothingBetter(ss[n], es[n], x)
    requires Waits(ss[0], x, i) && ss[0].current != x && i < Schedules(es)
    ensures k < |es| && es[k].Scheduled? && ss[k + 1].current == x
    decreases |es|
  {
    assert Step(ss[0], es[0], ss[1], idle) && NothingBetter(ss[0], es[0], x);
    BetterStep(ss[0], es[0], idle, x, i);
    StepLooseIff(ss[0], es[0], ss[1], idle);
    assert Covered(ss[1]);
    hide Step, Undisturbed, Waits, Covered, Safe, NothingBetter;
    var j := WaitStep(ss[0], es[0], ss[1], idle, x, i);
    if es[0].Scheduled? && ss[1].current == x {
      k := 0;
    } else {
      assert forall n | 0 <= n < |es| - 1 :: es[1..][n] == es[n + 1] && ss[1..][n] == ss[n + 1];
      k := NextOfBestRuns(ss[1..], es[1..], idle, x, j);
      k := k + 1;
    }
  }

  lemma BetterStep(s: Sched, e: Event, idle: Task, x: Task, i: nat)
    requires Covered(s) && Legal(s, e, idle) && NothingBetter(s, e, x) && Waits(s, x, i)
    ensures Undisturbed(s, e, x)
  {
    if e.Scheduled? {
      assert x in s.ready[x.prio];
      UndisturbedIff(s, e.clock, x);
    }
  }
}
