/** The priority scheduler as a function of its lists: 32 ready queues, their bitmap, the
    pending list.  Lists are sequences; a task is on at most one of them. */
module SchedQueues {
  import opened Basics

  const PRIORITIES := 32

  datatype Task = Task(id: nat, prio: nat)

  /** bits are the priorities whose bitmap bit is set, wake holds the readytime field of tasks in
      which it is not 0, now is the clock as last read. */
  datatype Sched = Sched(ready: seq<seq<Task>>, pending: seq<Task>, bits: set<nat>, current: Task,
                         wake: map<Task, int>, now: int) {
    function WakeTime(t: Task): (w: int) {
      if t in wake then wake[t] else 0
    }

    predicate Expired(t: Task) {
      WakeTime(t) < now
    }
  }

  /** q without t. */
  function Without(q: seq<Task>, t: Task): (r: seq<Task>)
    ensures forall u :: u in r <==> u in q && u != t
    ensures t !in q ==> r == q
  {
    if |q| == 0 then []
    else if q[0] == t then Without(q[1..], t)
    else [q[0]] + Without(q[1..], t)
  }

  /** list_del_init, on whichever list t is. */
  function Remove(s: Sched, t: Task): (r: Sched) {
    s.(ready := seq(|s.ready|, p requires 0 <= p < |s.ready| => Without(s.ready[p], t)),
       pending := Without(s.pending, t))
  }

  /** The tail of sched_block and sched_sleep: clear the bit of an empty queue. */
  function ClearIfEmpty(s: Sched, p: nat): (r: Sched)
    requires p < |s.ready|
  {
    if s.ready[p] == [] then s.(bits := s.bits - {p}) else s
  }

  /** sched_attach */
  function Attach(s: Sched, t: Task): (r: Sched)
    requires t.prio < |s.ready|
  {
    s.(ready := s.ready[t.prio := s.ready[t.prio] + [t]], bits := s.bits + {t.prio})
  }

  /** sched_unblock: like sched_attach, but at the head of the queue. */
  function Unblock(s: Sched, t: Task): (r: Sched)
    requires t.prio < |s.ready|
  {
    s.(ready := s.ready[t.prio := [t] + s.ready[t.prio]], bits := s.bits + {t.prio})
  }

  /** sched_block */
  function Block(s: Sched, t: Task): (r: Sched)
    requires t.prio < |s.ready|
  {
    ClearIfEmpty(Remove(s, t), t.prio)
  }

  /** sys_nanosleep with sched_sleep: the task is to be woken after time w. */
  function Sleep(s: Sched, t: Task, w: int): (r: Sched)
    requires t.prio < |s.ready|
  {
    var c := ClearIfEmpty(Remove(s, t), t.prio);
    c.(pending := c.pending + [t], wake := c.wake[t := w])
  }

  /** One turn of sched_pending_check: t goes to its queue when its time is before the reading. */
  function Wake(s: Sched, t: Task, reading: int): (r: Sched)
    requires t.prio < |s.ready|
    ensures |r.ready| == |s.ready|
  {
    var c := s.(now := reading);
    if c.Expired(t) then Attach(c.(pending := Without(c.pending, t)), t) else c
  }

  /** sched_pending_check over the rest of the pending list; clock holds the clock readings. */
  function Check(s: Sched, todo: seq<Task>, clock: seq<int>): (r: Sched)
    requires |todo| == |clock| && forall t | t in todo :: t.prio < |s.ready|
    ensures |r.ready| == |s.ready|
    decreases |todo|
  {
    if |todo| == 0 then s
    else
      Check(Wake(s, todo[0], clock[0]), todo[1..], clock[1..])
  }

  /** The least priority number, from p on, with its bit set; 0 when there is none. */
  function First(bits: set<nat>, p: nat): (r: nat)
    ensures forall q | q in bits && p <= q < PRIORITIES :: r in bits && p <= r <= q
    ensures r < PRIORITIES
    decreases PRIORITIES - p
  {
    if p >= PRIORITIES then 0 else if p in bits then p else First(bits, p + 1)
  }

  /** The task that schedule takes from queue q: the first that is not current. */
  function Pick(q: seq<Task>, current: Task): (i: nat)
    ensures i <= |q| && (i < |q| ==> q[i] != current) && forall j | 0 <= j < i :: q[j] == current
  {
    if |q| == 0 then 0 else if q[0] != current then 0 else 1 + Pick(q[1..], current)
  }

  /** schedule after the pending check, for best priority p. */
  function Dispatch(s: Sched, p: nat): (r: Sched)
    requires p < |s.ready|
  {
    var q := s.ready[p];
    var i := Pick(q, s.current);
    if i == |q| then s
    else s.(ready := s.ready[p := q[..i] + q[i + 1..]], pending := s.pending + [q[i]], current := q[i])
  }

  /** schedule: the pending check with these clock readings, then the switch. */
  function Schedule(s: Sched, clock: seq<int>): (r: Sched)
    requires |s.pending| == |clock| && |s.ready| == PRIORITIES
    requires forall t | t in s.pending :: t.prio < PRIORITIES
  {
    var c := Check(s, s.pending, clock);
    Dispatch(c, First(c.bits, 0))
  }

  // ---------------------------------------------------------------------------------
  // Invariants

  /** Each task is on at most one list, and a ready task on the queue of its priority. */
  ghost predicate Placed(s: Sched) {
    && |s.ready| == PRIORITIES
    && (forall p, t | 0 <= p < |s.ready| && t in s.ready[p] :: t.prio == p)
    && (forall p | 0 <= p < |s.ready| :: NoDup(s.ready[p]))
    && NoDup(s.pending) && (forall t | t in s.pending :: t.prio < PRIORITIES)
    && (forall p, t | 0 <= p < |s.ready| && t in s.ready[p] :: t !in s.pending)
  }

  ghost predicate Ready(s: Sched, t: Task) {
    t.prio < |s.ready| && t in s.ready[t.prio]
  }

  ghost predicate Listed(s: Sched, t: Task) {
    Ready(s, t) || t in s.pending
  }

  /** A bit may be set over an empty queue, but then an expired pending task stands for it. */
  ghost predicate Loose(s: Sched)
    requires |s.ready| == PRIORITIES
  {
    Marked(s) && forall p | p in s.bits && s.ready[p] == [] :: Stands(s, s.pending, s.now, p)
  }

  /** Every queue that is not empty has its bit set. */
  ghost predicate Marked(s: Sched)
    requires |s.ready| == PRIORITIES
  {
    (forall p | p in s.bits :: p < PRIORITIES) && forall p | 0 <= p < PRIORITIES && s.ready[p] != [] :: p in s.bits
  }

  ghost predicate Stands(s: Sched, todo: seq<Task>, now: int, p: nat) {
    exists t :: t in todo && t.prio == p && s.WakeTime(t) < now
  }

  /** The bitmap is exact. */
  ghost predicate Exact(s: Sched) {
    && |s.ready| == PRIORITIES
    && forall p: nat :: p in s.bits <==> p < PRIORITIES && s.ready[p] != []
  }

  /** Tasks on ready queues are due. */
  ghost predicate Due(s: Sched) {
    forall t | Ready(s, t) :: s.Expired(t)
  }

  ghost predicate Inv(s: Sched, idle: Task) {
    Placed(s) && Loose(s) && Due(s) && Listed(s, idle) && s.Expired(idle)
  }

  /** Clock readings for a pending check: as many as tasks, never going back. */
  ghost predicate Readings(s: Sched, clock: seq<int>) {
    && |clock| == |s.pending|
    && (forall i | 0 <= i < |clock| :: s.now <= clock[i])
    && (forall i, j | 0 <= i < j < |clock| :: clock[i] <= clock[j])
  }

  lemma {:induction false} TakeOut(a: seq<Task>, x: Task, t: seq<Task>)
    requires x !in a && |t| > 0 && t[0] == x && x !in t[1..]
    ensures Without(a + t, x) == a + t[1..]
  {
    if |a| == 0 {
      assert a + t == t && a + t[1..] == t[1..];
    } else {
      TakeOut(a[1..], x, t);
      Front(a, t);
      Front(a, t[1..]);
    }
  }

  lemma Front<T>(a: seq<T>, t: seq<T>)
    requires |a| > 0
    ensures (a + t)[0] == a[0] && (a + t)[1..] == a[1..] + t && a + t == [a[0]] + (a[1..] + t)
  {
  }

  /** Taking an element out leaves the others in their order. */
  lemma WithoutSplit(q: seq<Task>, t: Task, i: nat)
    requires NoDup(q) && i < |q| && q[i] == t
    ensures Without(q, t) == q[..i] + q[i + 1..]
  {
    assert q[..i] + q[i..] == q && q[i..][1..] == q[i + 1..];
    TakeOut(q[..i], t, q[i..]);
  }

  /** The tasks of s without t; clock, wake-up times and the current task as before. */
  ghost predicate TakenOff(s: Sched, r: Sched, t: Task) {
    && |r.ready| == |s.ready| && (forall p | 0 <= p < |s.ready| :: r.ready[p] == Without(s.ready[p], t))
    && r.pending == Without(s.pending, t) && r.wake == s.wake && r.now == s.now && r.current == s.current
    && (forall p: nat :: p in r.bits <==>
          p in s.bits && (p == t.prio && t.prio < |s.ready| ==> Without(s.ready[p], t) != []))
  }

  lemma WithoutNoDup(q: seq<Task>, t: Task)
    requires NoDup(q)
    ensures NoDup(Without(q, t))
  {
    if |q| > 0 {
      assert NoDup(q[1..]);
      WithoutNoDup(q[1..], t);
      assert q[0] !in q[1..];
    }
  }

  lemma RemovePlaced(s: Sched, t: Task)
    requires Placed(s)
    ensures Placed(Remove(s, t))
  {
    forall p | 0 <= p < |s.ready| ensures NoDup(Without(s.ready[p], t)) {
      WithoutNoDup(s.ready[p], t);
    }
    WithoutNoDup(s.pending, t);
  }

  /** sched_attach and sched_unblock of a task on no list keep the invariant exactly when the task
      is due, and add this task alone to the lists. */
  lemma AttachKeepsIff(s: Sched, t: Task, idle: Task)
    requires Inv(s, idle) && t.prio < PRIORITIES && !Listed(s, t)
    ensures (Inv(Attach(s, t), idle) <==> s.Expired(t)) && (Inv(Unblock(s, t), idle) <==> s.Expired(t))
    ensures forall u :: Listed(Attach(s, t), u) <==> Listed(s, u) || u == t
    ensures forall u :: Listed(Unblock(s, t), u) <==> Listed(s, u) || u == t
    ensures forall r | r in {Attach(s, t), Unblock(s, t)} ::
              r.pending == s.pending && r.wake == s.wake && r.now == s.now && r.current == s.current
  {
    hide Loose;
    AttachPlaced(s, t);
    AttachLoose(s, t);
    var a, b := Attach(s, t), Unblock(s, t);
    assert Ready(a, t) && Ready(b, t);
    forall u | (Ready(a, u) || Ready(b, u)) && u != t ensures a.Expired(u) && b.Expired(u) {
      assert Ready(s, u);
    }
  }

  lemma AttachPlaced(s: Sched, t: Task)
    requires Placed(s) && t.prio < PRIORITIES && !Listed(s, t)
    ensures Placed(Attach(s, t)) && Placed(Unblock(s, t))
  {
  }

  lemma AttachLoose(s: Sched, t: Task)
    requires Placed(s) && Loose(s) && t.prio < PRIORITIES
    ensures Loose(Attach(s, t)) && Loose(Unblock(s, t))
  {
    var a, b := Attach(s, t), Unblock(s, t);
    assert forall p | 0 <= p < PRIORITIES && p != t.prio :: a.ready[p] == s.ready[p] && b.ready[p] == s.ready[p];
    forall p | p in a.bits && a.ready[p] == []
      ensures Stands(a, a.pending, a.now, p) && Stands(b, b.pending, b.now, p)
    {
      var u :| u in s.pending && u.prio == p && s.WakeTime(u) < s.now;
      assert a.WakeTime(u) == s.WakeTime(u) == b.WakeTime(u);
    }
  }

  lemma BlockTakes(s: Sched, t: Task)
    requires t.prio < |s.ready|
    ensures TakenOff(s, Block(s, t), t)
  {
  }

  /** Taking t off its list and clearing the bit of its empty queue. */
  lemma BlockKeeps(s: Sched, t: Task, idle: Task)
    requires Inv(s, idle) && t.prio < PRIORITIES && t != idle
    ensures Inv(Block(s, t), idle) && forall u :: Listed(Block(s, t), u) <==> Listed(s, u) && u != t
    ensures TakenOff(s, Block(s, t), t)
  {
    BlockTakes(s, t);
    hide Loose, TakenOff;
    RemovePlaced(s, t);
    BlockLoose(s, t);
    var r := Block(s, t);
    forall u | Ready(r, u) ensures r.Expired(u) {
      assert Ready(s, u);
    }
  }

  lemma BlockLoose(s: Sched, t: Task)
    requires Placed(s) && Loose(s) && t.prio < PRIORITIES
    ensures Loose(Block(s, t))
  {
    var r := Block(s, t);
    forall p | 0 <= p < PRIORITIES && p != t.prio ensures r.ready[p] == s.ready[p] {
      assert t !in s.ready[p];
    }
    forall p | p in r.bits && r.ready[p] == [] ensures Stands(r, r.pending, r.now, p) {
      var u :| u in s.pending && u.prio == p && s.WakeTime(u) < s.now;
      assert u in r.pending && r.WakeTime(u) == s.WakeTime(u);
    }
  }

  lemma SleepKeeps(s: Sched, t: Task, w: int, idle: Task)
    requires Inv(s, idle) && t.prio < PRIORITIES && t != idle
    ensures var r := Sleep(s, t, w);
            && Inv(r, idle) && r.pending != [] && r.pending[|r.pending| - 1] == t && r.WakeTime(t) == w
            && (forall u :: Listed(r, u) <==> Listed(s, u) || u == t)
            && (forall u | u != t :: r.WakeTime(u) == s.WakeTime(u))
            && r.pending == Without(s.pending, t) + [t]
            && TakenOff(s, r.(pending := Without(s.pending, t), wake := s.wake), t)
  {
    BlockKeeps(s, t, idle);
    PendKeeps(Block(s, t), t, w, idle);
  }

  lemma PendKeeps(b: Sched, t: Task, w: int, idle: Task)
    requires Inv(b, idle) && !Listed(b, t) && t.prio < PRIORITIES
    ensures Inv(b.(pending := b.pending + [t], wake := b.wake[t := w]), idle)
  {
    var r := b.(pending := b.pending + [t], wake := b.wake[t := w]);
    PendLoose(b, t, w);
    hide Loose;
    forall u | Ready(r, u) ensures r.Expired(u) {
      assert Ready(b, u);
    }
  }

  lemma PendLoose(b: Sched, t: Task, w: int)
    requires |b.ready| == PRIORITIES && Loose(b) && t !in b.pending
    ensures Loose(b.(pending := b.pending + [t], wake := b.wake[t := w]))
  {
    var r := b.(pending := b.pending + [t], wake := b.wake[t := w]);
    forall p | p in r.bits && r.ready[p] == [] ensures Stands(r, r.pending, r.now, p) {
      var u :| u in b.pending && u.prio == p && b.WakeTime(u) < b.now;
      assert u in r.pending && r.WakeTime(u) == b.WakeTime(u);
    }
  }

  lemma TickLoose(s: Sched, now: int)
    requires |s.ready| == PRIORITIES && Loose(s) && s.now <= now
    ensures Loose(s.(now := now))
  {
    var r := s.(now := now);
    forall p | p in r.bits && r.ready[p] == [] ensures Stands(r, r.pending, r.now, p) {
      var u :| u in s.pending && u.prio == p && s.WakeTime(u) < s.now;
      assert u in r.pending && r.WakeTime(u) < r.now;
    }
  }

  /** Time passes. */
  lemma TickKeeps(s: Sched, now: int, idle: Task)
    requires Inv(s, idle) && s.now <= now
    ensures Inv(s.(now := now), idle)
  {
    var r := s.(now := now);
    TickLoose(s, now);
    hide Loose;
    forall t | Ready(r, t) ensures r.Expired(t) {
      assert Ready(s, t);
    }
  }

  // ---------------------------------------------------------------------------------
  // The pending check

  lemma WakePlaced(s: Sched, t: Task, reading: int)
    requires Placed(s) && t in s.pending
    ensures Placed(Wake(s, t, reading))
  {
    WithoutNoDup(s.pending, t);
    var c := s.(now := reading, pending := Without(s.pending, t));
    assert !Listed(c, t);
    AttachPlaced(c, t);
  }

  /** Of the tasks todo one of priority p is due when its turn comes. */
  ghost predicate Called(s: Sched, todo: seq<Task>, clock: seq<int>, p: nat)
    requires |clock| == |todo|
  {
    exists i :: 0 <= i < |todo| && todo[i].prio == p && s.WakeTime(todo[i]) < clock[i]
  }

  lemma CalledFirst(s: Sched, todo: seq<Task>, clock: seq<int>, p: nat)
    requires |clock| == |todo| > 0
    ensures Called(s, todo, clock, p) <==>
            (todo[0].prio == p && s.WakeTime(todo[0]) < clock[0]) || Called(s, todo[1..], clock[1..], p)
  {
    assert forall i | 0 < i < |todo| :: todo[i] == todo[1..][i - 1] && clock[i] == clock[1..][i - 1];
  }

  lemma SameCalls(s: Sched, m: Sched, todo: seq<Task>, clock: seq<int>, p: nat)
    requires |clock| == |todo| && m.wake == s.wake
    ensures Called(m, todo, clock, p) <==> Called(s, todo, clock, p)
  {
    assert forall t :: m.WakeTime(t) == s.WakeTime(t);
  }

  lemma WakeMarks(s: Sched, t: Task, reading: int)
    requires Placed(s) && Marked(s) && t.prio < PRIORITIES
    ensures var m := Wake(s, t, reading);
            && Marked(m) && m.wake == s.wake
            && forall p: nat | p < PRIORITIES :: (p in m.bits && m.ready[p] == []) <==>
               (p in s.bits && s.ready[p] == [] && !(t.prio == p && s.WakeTime(t) < reading))
  {
    var m := Wake(s, t, reading);
    assert forall p | 0 <= p < PRIORITIES && p != t.prio :: m.ready[p] == s.ready[p];
  }

  /** sched_pending_check leaves the bitmap exact, whatever the clock shows, exactly when for each bit
      over an empty queue a task of that priority is due when its turn comes. */
  lemma {:induction false} CheckExactIff(s: Sched, todo: seq<Task>, clock: seq<int>)
    requires Placed(s) && Marked(s) && NoDup(todo) && (forall t | t in todo :: t in s.pending) && |clock| == |todo|
    ensures Exact(Check(s, todo, clock)) <==>
            forall p: nat | p < PRIORITIES && p in s.bits && s.ready[p] == [] :: Called(s, todo, clock, p)
    decreases |todo|
  {
    if |todo| > 0 {
      var t, m := todo[0], Wake(s, todo[0], clock[0]);
      WakePlaced(s, t, clock[0]);
      WakeMarks(s, t, clock[0]);
      assert forall u | u in todo[1..] :: u != t && u in m.pending;
      CheckExactIff(m, todo[1..], clock[1..]);
      forall p: nat | p < PRIORITIES
        ensures Called(s, todo, clock, p) <==>
                (t.prio == p && s.WakeTime(t) < clock[0]) || Called(m, todo[1..], clock[1..], p)
      {
        CalledFirst(s, todo, clock, p);
        SameCalls(s, m, todo[1..], clock[1..], p);
      }
    }
  }

  /** So a covered bitmap is one that every pending check from now on makes exact. */
  lemma LooseIff(s: Sched)
    requires Placed(s) && Marked(s)
    ensures Loose(s) <==> forall clock | Readings(s, clock) :: Exact(Check(s, s.pending, clock))
  {
    if Loose(s) {
      forall clock | Readings(s, clock) ensures Exact(Check(s, s.pending, clock)) {
        LooseExact(s, clock);
      }
    } else {
      var clock := seq(|s.pending|, _ => s.now);
      assert Readings(s, clock);
      CheckExactIff(s, s.pending, clock);
      var p :| p in s.bits && s.ready[p] == [] && !Stands(s, s.pending, s.now, p);
      assert !Called(s, s.pending, clock, p);
    }
  }

  lemma LooseExact(s: Sched, clock: seq<int>)
    requires Placed(s) && Loose(s) && Readings(s, clock)
    ensures Exact(Check(s, s.pending, clock))
  {
    CheckExactIff(s, s.pending, clock);
    forall p: nat | p < PRIORITIES && p in s.bits && s.ready[p] == [] ensures Called(s, s.pending, clock, p) {
      assert Stands(s, s.pending, s.now, p);
      var t :| t in s.pending && t.prio == p && s.WakeTime(t) < s.now;
      var i :| 0 <= i < |s.pending| && s.pending[i] == t;
      assert s.now <= clock[i];
    }
  }

  /** The pending check sets no wake-up time and keeps tasks on at most one list; from due queues it
      leads to due queues. */
  lemma {:induction false} CheckKeeps(s: Sched, todo: seq<Task>, clock: seq<int>)
    requires Placed(s) && NoDup(todo) && (forall t | t in todo :: t in s.pending) && |clock| == |todo|
    requires forall i | 0 <= i < |clock| :: s.now <= clock[i]
    requires forall i, j | 0 <= i < j < |clock| :: clock[i] <= clock[j]
    ensures var r := Check(s, todo, clock);
            && Placed(r) && r.wake == s.wake && s.now <= r.now && (Due(s) ==> Due(r))
            && r.now == (if |clock| == 0 then s.now else clock[|clock| - 1]) && r.current == s.current
    decreases |todo|
  {
    if |todo| > 0 {
      var t, m := todo[0], Wake(s, todo[0], clock[0]);
      WakePlaced(s, t, clock[0]);
      assert forall u | u in todo[1..] :: u != t && u in m.pending;
      forall u | Due(s) && Ready(m, u) ensures m.Expired(u) {
        assert u == t || Ready(s, u);
      }
      CheckKeeps(m, todo[1..], clock[1..]);
    }
  }

  /** The tasks ready after it are those that were, and the pending ones due when their turn came. */
  lemma CheckReady(s: Sched, clock: seq<int>, u: Task)
    requires Placed(s) && |clock| == |s.pending|
    ensures Ready(Check(s, s.pending, clock), u) <==>
            Ready(s, u) || exists i :: 0 <= i < |clock| && s.pending[i] == u && s.WakeTime(u) < clock[i]
  {
    var r := Check(s, s.pending, clock);
    CheckMoves(s, s.pending, clock, u);
    CheckPlaced(s, s.pending, clock);
    hide Check;
    if u in s.pending {
      var i :| 0 <= i < |clock| && s.pending[i] == u;
      assert !Ready(s, u);
    }
  }

  lemma {:induction false} CheckPlaced(s: Sched, todo: seq<Task>, clock: seq<int>)
    requires Placed(s) && NoDup(todo) && (forall t | t in todo :: t in s.pending) && |clock| == |todo|
    ensures Placed(Check(s, todo, clock))
    decreases |todo|
  {
    if |todo| > 0 {
      var m := Wake(s, todo[0], clock[0]);
      WakePlaced(s, todo[0], clock[0]);
      assert forall t | t in todo[1..] :: t != todo[0] && t in m.pending;
      CheckPlaced(m, todo[1..], clock[1..]);
    }
  }

  /** It loses no task; a task stays pending exactly when its time is not before its reading. */
  lemma {:induction false} CheckMoves(s: Sched, todo: seq<Task>, clock: seq<int>, u: Task)
    requires Placed(s) && NoDup(todo) && (forall t | t in todo :: t in s.pending) && |clock| == |todo|
    ensures var r := Check(s, todo, clock);
            && (Listed(r, u) <==> Listed(s, u))
            && (forall i | 0 <= i < |todo| && todo[i] == u :: u in r.pending <==> clock[i] <= s.WakeTime(u))
            && (u !in todo ==> (u in r.pending <==> u in s.pending))
    decreases |todo|
  {
    if |todo| > 0 {
      var t, m := todo[0], Wake(s, todo[0], clock[0]);
      WakePlaced(s, t, clock[0]);
      assert forall v | v in todo[1..] :: v != t && v in m.pending;
      CheckMoves(m, todo[1..], clock[1..], u);
      assert forall i | 1 <= i < |todo| :: todo[i] == todo[1..][i - 1] && clock[i] == clock[1..][i - 1];
      assert m.WakeTime(u) == s.WakeTime(u);
    }
  }

  lemma {:induction false} CheckCurrent(s: Sched, todo: seq<Task>, clock: seq<int>)
    requires |clock| == |todo| && (forall t | t in todo :: t.prio < |s.ready|)
    ensures Check(s, todo, clock).current == s.current
    decreases |todo|
  {
    if |todo| > 0 {
      CheckCurrent(Wake(s, todo[0], clock[0]), todo[1..], clock[1..]);
    }
  }

  /** Ready queues grow at the tail only. */
  lemma {:induction false} CheckAppends(s: Sched, todo: seq<Task>, clock: seq<int>, p: nat)
    requires |clock| == |todo| && (forall t | t in todo :: t.prio < |s.ready|) && p < |s.ready|
    ensures s.ready[p] <= Check(s, todo, clock).ready[p]
    decreases |todo|
  {
    if |todo| > 0 {
      CheckAppends(Wake(s, todo[0], clock[0]), todo[1..], clock[1..], p);
    }
  }
}
