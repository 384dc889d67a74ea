/** The scheduler on its global variables: queues, the two-level bitmap, the current task. */
module Scheduler {
  import opened Basics
  import opened Words
  import opened SchedQueues
  import SchedRuns

  type Byte = w: Word | |w| == 8 witness Zeros(8)

  const ROWS := 4

  /** bit(n) */
  function One(n: nat): (b: Byte)
    ensures forall i | 0 <= i < 8 :: b[i] == (i == n)
  {
    seq(8, i => i == n)
  }

  // ---------------------------------------------------------------------------------
  // The table that finds the lowest set bit

  function Digit(b: Byte, i: nat): (d: nat)
    requires i < 8
  {
    if b[i] then 1 else 0
  }

  function Nibble(b: Byte, i: nat): (v: nat)
    requires i == 0 || i == 4
    ensures v < 16
  {
    Digit(b, i) + 2 * Digit(b, i + 1) + 4 * Digit(b, i + 2) + 8 * Digit(b, i + 3)
  }

  /** The byte as a table index. */
  function Value(b: Byte): (v: nat)
    ensures v < 256
  {
    Nibble(b, 0) + 16 * Nibble(b, 4)
  }

  /** Columns 1 to 15 of g_priority_map; its sixteen rows agree there. */
  const COLUMNS: seq<nat> := [0, 1, 0, 2, 0, 1, 0, 3, 0, 1, 0, 2, 0, 1, 0]

  /** Column 0 of the rows of g_priority_map. */
  const COLUMN0: seq<nat> := [0, 4, 5, 4, 6, 4, 5, 4, 7, 4, 5, 4, 6, 4, 5, 4]

  function PriorityMap(v: nat): (r: nat)
    requires v < 256
  {
    if v % 16 == 0 then COLUMN0[v / 16] else COLUMNS[v % 16 - 1]
  }

  ghost predicate Lowest(b: Byte, i: nat) {
    i < 8 && b[i] && forall j | 0 <= j < i :: !b[j]
  }

  lemma MapLow(b: Byte)
    requires Nibble(b, 0) != 0
    ensures Lowest(b, COLUMNS[Nibble(b, 0) - 1])
  {
  }

  lemma MapHigh(b: Byte)
    requires Nibble(b, 0) == 0 && Nibble(b, 4) != 0
    ensures Lowest(b, COLUMN0[Nibble(b, 4)])
  {
  }

  /** g_priority_map gives the lowest set bit of every byte but 0, and 0 for 0. */
  lemma MapIsLowest(b: Byte)
    ensures b == Zeros(8) ==> PriorityMap(Value(b)) == 0
    ensures b != Zeros(8) ==> Lowest(b, PriorityMap(Value(b)))
  {
    assert Value(b) % 16 == Nibble(b, 0) && Value(b) / 16 == Nibble(b, 4);
    if Nibble(b, 0) == 0 && Nibble(b, 4) == 0 {
      assert b == Zeros(8);
    } else {
      assert b != Zeros(8);
      hide Lowest, Nibble;
      if Nibble(b, 0) != 0 {
        MapLow(b);
      } else {
        MapHigh(b);
      }
    }
  }

  // ---------------------------------------------------------------------------------
  // The two-level bitmap

  /** The priorities whose bit is set. */
  function BitsOf(m: seq<Byte>): (s: set<nat>) {
    set p: nat | p < 8 * |m| && m[p / 8][p % 8]
  }

  /** A group bit is set exactly when its row of the bitmap is not 0. */
  ghost predicate Grouped(group: Byte, m: seq<Byte>) {
    |m| == ROWS && forall r | 0 <= r < 8 :: group[r] <==> r < ROWS && m[r] != Zeros(8)
  }

  lemma SetOne(group: Byte, m: seq<Byte>, p: nat)
    requires Grouped(group, m) && p < PRIORITIES
    ensures var n := m[p / 8 := Or(m[p / 8], One(p % 8))];
            Grouped(Or(group, One(p / 8)), n) && BitsOf(n) == BitsOf(m) + {p}
  {
    var n := m[p / 8 := Or(m[p / 8], One(p % 8))];
    assert n[p / 8][p % 8];
    forall q: nat | q < PRIORITIES ensures q in BitsOf(n) <==> q in BitsOf(m) + {p} {
      assert q / 8 == p / 8 && q % 8 == p % 8 ==> q == p;
    }
  }

  lemma ClearOne(group: Byte, m: seq<Byte>, p: nat)
    requires Grouped(group, m) && p < PRIORITIES
    ensures var n := m[p / 8 := And(m[p / 8], Not(One(p % 8)))];
            && BitsOf(n) == BitsOf(m) - {p}
            && Grouped(if n[p / 8] == Zeros(8) then And(group, Not(One(p / 8))) else group, n)
  {
    var n := m[p / 8 := And(m[p / 8], Not(One(p % 8)))];
    forall q: nat | q < PRIORITIES ensures q in BitsOf(n) <==> q in BitsOf(m) - {p} {
      assert q / 8 == p / 8 && q % 8 == p % 8 ==> q == p;
    }
    if n[p / 8] != Zeros(8) {
      assert m[p / 8] != Zeros(8) by {
        assert exists i :: 0 <= i < 8 && n[p / 8][i] != Zeros(8)[i];
      }
    }
  }

  /** The search through both levels finds the least priority number whose bit is set. */
  lemma TwoLevels(group: Byte, m: seq<Byte>)
    requires Grouped(group, m)
    ensures var row := PriorityMap(Value(group));
            row < ROWS && row * 8 + PriorityMap(Value(m[row])) == First(BitsOf(m), 0)
  {
    var row := PriorityMap(Value(group));
    MapIsLowest(group);
    hide PriorityMap, Value;
    if group == Zeros(8) {
      NoneSet(group, m);
    } else {
      MapIsLowest(m[row]);
      LeastSet(m, row, PriorityMap(Value(m[row])));
    }
  }

  lemma NoneSet(group: Byte, m: seq<Byte>)
    requires Grouped(group, m) && group == Zeros(8)
    ensures BitsOf(m) == {} && m[0] == Zeros(8) && First(BitsOf(m), 0) == 0
  {
    assert !group[0] && !group[1] && !group[2] && !group[3];
    forall p: nat | p < PRIORITIES ensures p !in BitsOf(m) {
      assert m[p / 8] == Zeros(8);
    }
    FirstOfNone(0);
  }

  lemma FirstOfNone(p: nat)
    ensures First({}, p) == 0
    decreases PRIORITIES - p
  {
  }

  lemma LeastSet(m: seq<Byte>, row: nat, col: nat)
    requires |m| == ROWS && row < ROWS && Lowest(m[row], col)
    requires forall r | 0 <= r < row :: m[r] == Zeros(8)
    ensures row * 8 + col == First(BitsOf(m), 0)
  {
    var p := row * 8 + col;
    assert p / 8 == row && p % 8 == col;
    assert p in BitsOf(m);
    forall q: nat | q in BitsOf(m) ensures p <= q {
      NotBelow(m, row, col, q);
    }
    hide BitsOf;
    assert First(BitsOf(m), 0) in BitsOf(m);
  }

  lemma NotBelow(m: seq<Byte>, row: nat, col: nat, q: nat)
    requires |m| == ROWS && row < ROWS && Lowest(m[row], col) && q < PRIORITIES && m[q / 8][q % 8]
    requires forall r | 0 <= r < row :: m[r] == Zeros(8)
    ensures row * 8 + col <= q
  {
    var r, i := q / 8, q % 8;
    assert !Zeros(8)[i];
    assert r >= row && (r == row ==> i >= col);
  }

  // ---------------------------------------------------------------------------------
  // The operations

  lemma {:induction false} WithoutAt(q: seq<Task>, i: nat)
    requires NoDup(q) && i < |q|
    ensures Without(q, q[i]) == q[..i] + q[i + 1..]
  {
    if i == 0 {
      assert q[0] !in q[1..];
    } else {
      var rest := q[1..];
      assert NoDup(rest) && rest[i - 1] == q[i] && q[0] != q[i];
      WithoutAt(rest, i - 1);
      assert rest[..i - 1] == q[1..i] && rest[i..] == q[i + 1..];
      assert [q[0]] + q[1..i] == q[..i];
    }
  }

  lemma RemovePending(s: Sched, t: Task)
    requires Placed(s) && t in s.pending
    ensures Remove(s, t) == s.(pending := Without(s.pending, t))
  {
    assert Remove(s, t).ready == s.ready;
  }

  class Scheduler {
    const bitmap: array<Byte>
    var group: Byte
    var ready: seq<seq<Task>>
    var pending: seq<Task>
    var current: Task
    var wake: map<Task, int>
    ghost var now: int

    ghost predicate Valid()
      reads this, bitmap
    {
      |ready| == PRIORITIES && Grouped(group, bitmap[..])
    }

    ghost function View(): (s: Sched)
      reads this, bitmap
    {
      Sched(ready, pending, BitsOf(bitmap[..]), current, wake, now)
    }

    /** sched_init */
    constructor (idle: Task, ghost time: int)
      requires idle.prio < PRIORITIES
      ensures Valid() && fresh(bitmap)
      ensures View() == SchedRuns.Initial(idle, time)
    {
      bitmap := new Byte[ROWS](_ => Zeros(8));
      group := Zeros(8);
      ready := seq(PRIORITIES, _ => []);
      pending, current, wake, now := [], idle, map[], time;
      new;
      assert BitsOf(bitmap[..]) == {};
      AttachTask(idle);
    }

    method SetBit(p: nat)
      requires Valid() && p < PRIORITIES
      modifies this`group, bitmap
      ensures Valid() && View() == old(View()).(bits := old(View()).bits + {p})
    {
      SetOne(group, bitmap[..], p);
      group := Or(group, One(p / 8));
      bitmap[p / 8] := Or(bitmap[p / 8], One(p % 8));
      assert bitmap[..] == old(bitmap[..])[p / 8 := Or(old(bitmap[..])[p / 8], One(p % 8))];
    }

    /** The clearing of a priority's bit when its queue is empty. */
    method ClearBitIfEmpty(p: nat)
      requires Valid() && p < PRIORITIES
      modifies this`group, bitmap
      ensures Valid() && View() == ClearIfEmpty(old(View()), p)
    {
      if ready[p] == [] {
        ClearOne(group, bitmap[..], p);
        bitmap[p / 8] := And(bitmap[p / 8], Not(One(p % 8)));
        assert bitmap[..] == old(bitmap[..])[p / 8 := And(old(bitmap[..])[p / 8], Not(One(p % 8)))];
        if bitmap[p / 8] == Zeros(8) {
          group := And(group, Not(One(p / 8)));
        }
      }
    }

    method Unlink(t: Task)
      requires Valid()
      modifies this`ready, this`pending
      ensures Valid() && View() == Remove(old(View()), t)
    {
      ready := seq(|ready|, p requires 0 <= p < |ready| reads this => Without(ready[p], t));
      pending := Without(pending, t);
    }

    /** sched_attach */
    method AttachTask(t: Task)
      requires Valid() && t.prio < PRIORITIES
      modifies this`ready, this`group, bitmap
      ensures Valid() && View() == Attach(old(View()), t)
    {
      ready := ready[t.prio := ready[t.prio] + [t]];
      SetBit(t.prio);
    }

    /** sched_unblock */
    method UnblockTask(t: Task)
      requires Valid() && t.prio < PRIORITIES
      modifies this`ready, this`group, bitmap
      ensures Valid() && View() == Unblock(old(View()), t)
    {
      ready := ready[t.prio := [t] + ready[t.prio]];
      SetBit(t.prio);
    }

    /** sched_block */
    method BlockTask(t: Task)
      requires Valid() && t.prio < PRIORITIES
      modifies this`ready, this`pending, this`group, bitmap
      ensures Valid() && View() == Block(old(View()), t)
    {
      Unlink(t);
      ClearBitIfEmpty(t.prio);
    }

    /** sys_nanosleep with sched_sleep */
    method SleepTask(t: Task, until: int)
      requires Valid() && t.prio < PRIORITIES
      modifies this`ready, this`pending, this`group, this`wake, bitmap
      ensures Valid() && View() == Sleep(old(View()), t, until)
    {
      wake := wake[t := until];
      Unlink(t);
      ClearBitIfEmpty(t.prio);
      pending := pending + [t];
    }

    /** sched_wake and sched_attach of a pending task */
    method WakeTask(t: Task)
      requires Valid() && Placed(View()) && t in pending
      modifies this`ready, this`pending, this`group, bitmap
      ensures Valid() && View() == Attach(old(View()).(pending := Without(old(pending), t)), t)
    {
      RemovePending(View(), t);
      Unlink(t);
      SetBit(t.prio);
      AttachTask(t);
    }

    /** One turn of the pending check's loop, at place i of the list. */
    method Turn(i: nat, reading: int) returns (j: nat)
      requires Valid() && Placed(View()) && i < |pending|
      modifies this`ready, this`pending, this`group, this`now, bitmap
      ensures Valid() && Placed(View()) && View() == Wake(old(View()), old(pending)[i], reading)
      ensures j <= |pending| && pending[j..] == old(pending)[i + 1..]
    {
      var t := pending[i];
      WakePlaced(View(), t, reading);
      WithoutAt(pending, i);
      now := reading;
      var remain := (if t in wake then wake[t] else 0) - reading;
      if remain < 0 {
        WakeTask(t);
        j := i;
      } else {
        j := i + 1;
      }
    }

    /** sched_pending_check, with its clock readings */
    method PendingCheck(clock: seq<int>)
      requires Valid() && Placed(View()) && |clock| == |pending|
      modifies this`ready, this`pending, this`group, this`now, bitmap
      ensures Valid() && View() == Check(old(View()), old(pending), clock)
    {
      var i, k := 0, 0;
      while i < |pending|
        invariant 0 <= i <= |pending| && 0 <= k <= |clock| && Valid() && Placed(View())
        invariant pending[i..] == old(pending)[k..]
        invariant Check(View(), old(pending)[k..], clock[k..]) == Check(old(View()), old(pending), clock)
        decreases |clock| - k
      {
        assert |clock[k..]| == |pending[i..]|;
        assert pending[i] == old(pending)[k];
        i := Turn(i, clock[k]);
        assert old(pending)[k..][1..] == old(pending)[k + 1..] && clock[k..][1..] == clock[k + 1..];
        k := k + 1;
      }
      assert old(pending)[k..] == [];
    }

    /** schedule, without the task_switch at its end */
    method ScheduleNext(clock: seq<int>)
      requires Valid() && Placed(View()) && |clock| == |pending|
      modifies this, bitmap
      ensures Valid() && View() == Schedule(old(View()), clock)
    {
      PendingCheck(clock);
      TwoLevels(group, bitmap[..]);
      var row := PriorityMap(Value(group));
      var p := row * 8 + PriorityMap(Value(bitmap[row]));
      Switch(p);
    }

    /** The loop of schedule over the ready queue it has chosen. */
    method Switch(p: nat)
      requires Valid() && p < PRIORITIES
      modifies this`ready, this`pending, this`current
      ensures Valid() && View() == Dispatch(old(View()), p)
    {
      var q := ready[p];
      var i := 0;
      while i < |q| && q[i] == current
        invariant 0 <= i <= |q| && forall j | 0 <= j < i :: q[j] == current
      {
        i := i + 1;
      }
      assert i == Pick(q, current);
      if i < |q| {
        current := q[i];
        ready := ready[p := q[..i] + q[i + 1..]];
        pending := pending + [q[i]];
      }
    }
  }
}
