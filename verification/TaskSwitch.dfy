/** The code that switches tasks and numbers them, on its global variables. */
module TaskSwitch {
  import opened Words
  import opened Asid
  import Bitmap

  /** The indices whose bits are set. */
  function UsedOf(m: Bitmap.Map, n: nat): (s: set<nat>)
    requires n <= 64 * |m|
  {
    set i: nat | i < n && Bitmap.Bit(m, i)
  }

  lemma FoundIsLeast(m: Bitmap.Map, n: nat, from: nat, r: nat)
    requires n <= 64 * |m| && r <= n && (from <= r || r == n) && (r < n ==> !Bitmap.Bit(m, r))
    requires forall i: nat | from <= i < r :: Bitmap.Bit(m, i)
    ensures r == LeastFree(UsedOf(m, n), from, n)
  {
    var l := LeastFree(UsedOf(m, n), from, n);
    assert l < n && from <= l ==> !Bitmap.Bit(m, l);
    assert r < n ==> r !in UsedOf(m, n);
  }

  lemma SetOne(m: Bitmap.Map, n: nat, i: nat)
    requires n <= 64 * |m| && i < n
    ensures UsedOf(Bitmap.WithBits(m, i, i + 1, true), n) == UsedOf(m, n) + {i}
  {
    var m' := Bitmap.WithBits(m, i, i + 1, true);
    forall j: nat | j < n ensures j in UsedOf(m', n) <==> j in UsedOf(m, n) + {i} {
      assert Bitmap.Bit(m', j) == (j == i || Bitmap.Bit(m, j));
    }
  }

  lemma ClearAll(m: Bitmap.Map, n: nat)
    requires n <= 64 * |m|
    ensures UsedOf(Bitmap.WithBits(m, 0, n, false), n) == {}
  {
    var m' := Bitmap.WithBits(m, 0, n, false);
    forall j: nat | j < n ensures j !in UsedOf(m', n) {
      assert !Bitmap.Bit(m', j);
    }
  }

  class Switcher {
    const c: Config
    const bitmap: array<Word64>
    var generation: nat
    var flushTlb: bool
    var curIdx: nat
    var asid: map<Task, Id>
    var ttbr: Xlat
    var tlb: set<Xlat>

    ghost predicate Valid()
      reads this
    {
      && Sane(c) && c.n <= 64 * bitmap.Length
      && forall t | t in asid :: asid[t].idx < c.n
    }

    ghost function View(): (s: Asids)
      requires Valid()
      reads this, bitmap
    {
      Asids(generation, UsedOf(bitmap[..], c.n), flushTlb, curIdx, asid)
    }

    /** check_and_switch_context */
    method CheckAndSwitchContext(t: Task) returns (r: Id)
      requires Valid()
      modifies this`generation, this`flushTlb, this`curIdx, this`asid, bitmap
      ensures Valid()
      ensures (View(), r) == Choose(c, old(View()), t)
    {
      var a := if t in asid then asid[t] else NONE;
      if !t.user {
        return NONE;
      }
      if a.gen == generation {
        return a;
      }
      if a != NONE {
        var was := Bitmap.TestAndSetBit(bitmap, a.idx);
        SetOne(old(bitmap[..]), c.n, a.idx);
        if !was {
          assert a.idx !in old(View()).used;
          return Id(generation, a.idx);
        }
        assert View().used == old(View()).used;
      }
      r := Allocate(t);
    }

    /** The rest of check_and_switch_context: a new identifier, from a new generation if need be. */
    method Allocate(t: Task) returns (r: Id)
      requires Valid()
      modifies this`generation, this`flushTlb, this`curIdx, this`asid, bitmap
      ensures Valid()
      ensures var s, i := old(View()), LeastFree(old(View()).used, old(curIdx), c.n);
              if i < c.n then
                && r == Id(0, i)
                && View() == s.(used := s.used + {i}, asid := s.asid[t := Id(s.gen, i)], cur := i)
              else
                && r == Id(0, 1)
                && View() == Asids(NextGen(s.gen, c.limit), {1}, true, 1, s.asid[t := Id(NextGen(s.gen, c.limit), 1)])
    {
      var idx := Bitmap.FindNextZeroBit(bitmap[..], c.n, curIdx);
      FoundIsLeast(bitmap[..], c.n, curIdx, idx);
      if idx >= c.n {
        NewGeneration();
        idx := Bitmap.FindNextZeroBit(bitmap[..], c.n, 1);
        assert 1 !in View().used;
      }
      Take(t, idx);
      r := Id(0, idx);
    }

    method NewGeneration()
      requires Valid()
      modifies this`generation, this`flushTlb, bitmap
      ensures Valid()
      ensures View() == Asids(NextGen(old(generation), c.limit), {}, true, curIdx, asid)
    {
      generation := if generation + 1 < c.limit then generation + 1 else 0;
      flushTlb := true;
      ClearAll(bitmap[..], c.n);
      Bitmap.Fill(bitmap, 0, c.n, false);
    }

    method Take(t: Task, idx: nat)
      requires Valid() && idx < c.n
      modifies this`curIdx, this`asid, bitmap
      ensures Valid()
      ensures View() == old(View()).(used := old(View()).used + {idx}, cur := idx,
                                     asid := old(asid)[t := Id(generation, idx)])
    {
      SetOne(bitmap[..], c.n, idx);
      Bitmap.Fill(bitmap, idx, 1, true);
      asid := asid[t := Id(generation, idx)];
      curIdx := idx;
    }

    /** task_switch, with as_switch and flush_TLB: the state of the machine moves as SwitchTo says. */
    method TaskSwitch(from: Task, to: Task, ghost log: set<Grant>)
      requires Valid()
      modifies this, bitmap
      ensures Valid()
      ensures var s' := SwitchTo(c, Machine(old(View()), from, old(ttbr), old(tlb), log), to);
              View() == s'.a && ttbr == s'.ttbr && tlb == s'.tlb
    {
      var a := CheckAndSwitchContext(to);
      if to.tgid != from.tgid {
        if to.user {
          ttbr := Xlat(c.tag(a.idx), to.space);
        }
        if flushTlb {
          flushTlb := false;
          tlb := {};
        }
      }
    }
  }

  // ---------------------------------------------------------------------------------
  // Task numbers

  const MAX_TASKS := 0x20000

  /** The numbers in use and g_lasttid. */
  datatype Tids = Tids(live: set<nat>, last: int)

  class TidAllocator {
    const bitmap: array<Word64>
    var lasttid: int

    ghost predicate Valid()
      reads this
    {
      MAX_TASKS <= 64 * bitmap.Length && lasttid >= -1
    }

    ghost function View(): (s: Tids)
      requires Valid()
      reads this, bitmap
    {
      Tids(UsedOf(bitmap[..], MAX_TASKS), lasttid)
    }

    /** task_assign_tid: -1 when no number from g_lasttid + 1 on is free. */
    method Assign() returns (tid: int)
      requires Valid()
      modifies this`lasttid, bitmap
      ensures Valid()
      ensures TidStep(old(View()), if tid < 0 then Refused else Assigned(tid), View())
    {
      var r := Bitmap.FindNextZeroBit(bitmap[..], MAX_TASKS, lasttid + 1);
      FoundIsLeast(bitmap[..], MAX_TASKS, lasttid + 1, r);
      if r >= MAX_TASKS {
        return -1;
      }
      SetOne(bitmap[..], MAX_TASKS, r);
      Bitmap.Fill(bitmap, r, 1, true);
      lasttid := r;
      tid := r;
    }

    /** task_release_tid */
    method Release(tid: nat)
      requires Valid() && tid < MAX_TASKS
      modifies this`lasttid, bitmap
      ensures Valid()
      ensures TidStep(old(View()), Released(tid), View())
    {
      ghost var m := bitmap[..];
      Bitmap.Fill(bitmap, tid, 1, false);
      lasttid := tid - 1;
      assert View().live == UsedOf(m, MAX_TASKS) - {tid} by {
        forall j: nat | j < MAX_TASKS ensures j in View().live <==> j in UsedOf(m, MAX_TASKS) - {tid} {
          assert Bitmap.Bit(bitmap[..], j) == (j != tid && Bitmap.Bit(m, j));
        }
      }
    }
  }

  datatype TidEvent = Assigned(tid: nat) | Refused | Released(tid: nat)

  ghost predicate TidStep(s: Tids, e: TidEvent, s': Tids)
    requires s.last >= -1
  {
    match e
    case Assigned(t) => t < MAX_TASKS && t == LeastFree(s.live, s.last + 1, MAX_TASKS) && s' == Tids(s.live + {t}, t)
    case Refused => LeastFree(s.live, s.last + 1, MAX_TASKS) == MAX_TASKS && s' == s
    case Released(t) => t < MAX_TASKS && s' == Tids(s.live - {t}, t - 1)
  }

  ghost predicate TidRun(ss: seq<Tids>, es: seq<TidEvent>) {
    && |ss| == |es| + 1 && ss[0] == Tids({}, -1)
    && (forall i | 0 <= i < |ss| :: ss[i].last >= -1)
    && (forall i | 0 <= i < |es| :: TidStep(ss[i], es[i], ss[i + 1]))
  }

  /** A number is handed out exactly when it is the first free one after the last. */
  lemma AssignedIff(s: Tids, t: nat, s': Tids)
    requires s.last >= -1
    ensures TidStep(s, Assigned(t), s') <==>
            && s.last < t < MAX_TASKS && t !in s.live && (forall u: nat | s.last < u < t :: u in s.live)
            && s'.live == s.live + {t} && s'.last == t
  {
  }

  /** A number just released is the next one handed out, and there is no refusal. */
  lemma ReleasedIsNext(s: Tids, t: nat, r: Tids, e: TidEvent, s': Tids)
    requires s.last >= -1 && TidStep(s, Released(t), r) && r.last >= -1 && TidStep(r, e, s') && !e.Released?
    ensures e == Assigned(t)
  {
  }

  /** task_assign_tid refuses exactly when every free number lies below the place where it starts to
      search; so it can refuse although numbers are free. */
  lemma RefusalIff(s: Tids)
    requires s.last >= -1
    ensures TidStep(s, Refused, s) <==> forall t: nat | t < MAX_TASKS && t !in s.live :: t <= s.last
  {
  }

  ghost function Below(n: nat): (s: set<nat>)
    ensures forall t: nat :: t in s <==> t < n
  {
    if n == 0 then {} else Below(n - 1) + {n - 1}
  }

  lemma Extended(ss: seq<Tids>, es: seq<TidEvent>, e: TidEvent, s: Tids)
    requires TidRun(ss, es) && TidStep(ss[|es|], e, s) && s.last >= -1
    ensures TidRun(ss + [s], es + [e])
  {
  }

  /** The run that assigns the first n numbers. */
  lemma {:induction false} AssignFirst(n: nat) returns (ss: seq<Tids>, es: seq<TidEvent>)
    requires n <= MAX_TASKS
    ensures TidRun(ss, es) && ss[|es|] == Tids(Below(n), n - 1)
  {
    if n == 0 {
      ss, es := [Tids({}, -1)], [];
    } else {
      ss, es := AssignFirst(n - 1);
      assert TidStep(ss[|es|], Assigned(n - 1), Tids(Below(n), n - 1));
      Extended(ss, es, Assigned(n - 1), Tids(Below(n), n - 1));
      ss, es := ss + [Tids(Below(n), n - 1)], es + [Assigned(n - 1)];
    }
  }

  /** From the start: all numbers assigned, 5 and 7 released, 7 assigned again, and the next request
      refused although 5 is free. */
  lemma RefusedThoughFree() returns (ss: seq<Tids>, es: seq<TidEvent>)
    ensures TidRun(ss, es) && |es| > 0 && es[|es| - 1] == Refused && 5 !in ss[|es|].live
  {
    ss, es := AssignFirst(MAX_TASKS);
    var all := Below(MAX_TASKS);
    var a, b, c := Tids(all - {5}, 4), Tids(all - {5} - {7}, 6), Tids(all - {5} - {7} + {7}, 7);
    Extended(ss, es, Released(5), a);
    Extended(ss + [a], es + [Released(5)], Released(7), b);
    Extended(ss + [a] + [b], es + [Released(5)] + [Released(7)], Assigned(7), c);
    RefusalIff(c);
    Extended(ss + [a] + [b] + [c], es + [Released(5)] + [Released(7)] + [Assigned(7)], Refused, c);
    ss, es := ss + [a] + [b] + [c] + [c], es + [Released(5)] + [Released(7)] + [Assigned(7)] + [Refused];
  }

  /** A number stays in use until it is released. */
  lemma {:induction false} StaysLive(ss: seq<Tids>, es: seq<TidEvent>, i: nat, j: nat)
    requires TidRun(ss, es) && i < j <= |es| && es[i].Assigned?
    requires forall m | i < m < j :: es[m] != Released(es[i].tid)
    ensures es[i].tid in ss[j].live
  {
    assert TidStep(ss[j - 1], es[j - 1], ss[j]);
    if i < j - 1 {
      StaysLive(ss, es, i, j - 1);
    }
  }

  /** Over every run: a number is handed out again only after it was released. */
  lemma TidsDistinct(ss: seq<Tids>, es: seq<TidEvent>, i: nat, j: nat)
    requires TidRun(ss, es) && i < j < |es| && es[i].Assigned? && es[j] == es[i]
    ensures exists m :: i < m < j && es[m] == Released(es[i].tid)
  {
    assert TidStep(ss[j], es[j], ss[j + 1]);
    if forall m | i < m < j :: es[m] != Released(es[i].tid) {
      StaysLive(ss, es, i, j);
    }
  }
}
