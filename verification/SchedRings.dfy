/** sched_pending_check on the linked lists themselves: a walk with a saved next pointer over the
    pending ring, while elements move to the ready rings. */
module SchedRings {
  import opened ListHead
  import Q = SchedQueues

  /** Which ring a node is in: a ready ring by its number, or the pending ring. */
  type Owner = map<Node, int>

  const PENDING := -1

  /** c, from its head on, is ring i, and its nodes belong to it. */
  ghost predicate RingOf(c: seq<Node>, owner: Owner, i: int)
    reads owner.Keys
  {
    (forall n | n in c :: n in owner && owner[n] == i) && Ring(c)
  }

  /** The pending ring c and the ready rings qs; no node is in two of them. */
  ghost predicate Rings(c: seq<Node>, qs: seq<seq<Node>>, owner: Owner)
    reads owner.Keys
  {
    RingOf(c, owner, PENDING) && forall p | 0 <= p < |qs| :: RingOf(qs[p], owner, p)
  }

  /** list_del_init of element i of the pending ring, as in sched_wake. */
  method Detach(e: Node, ghost c: seq<Node>, ghost qs: seq<seq<Node>>, ghost owner: Owner, ghost i: nat)
    requires Rings(c, qs, owner) && 0 < i < |c| && e == c[i]
    modifies owner.Keys
    ensures Rings(c[..i] + c[i + 1..], qs, owner - {e})
  {
    assert e.prev == c[i - 1] && e.next == Succ(c, i) && e in c && e.prev in c && e.next in c;
    DelInit(e, c, i);
    ghost var c' := c[..i] + c[i + 1..];
    assert e !in c' && forall n | n in c' :: n in c;
    ghost var o := owner - {e};
    forall p | 0 <= p < |qs| ensures RingOf(qs[p], o, p) {
      assert old(RingOf(qs[p], owner, p));
    }
  }

  /** list_add_tail to ready ring b of an element of no ring, as in sched_attach. */
  method Append(e: Node, head: Node, ghost c: seq<Node>, ghost qs: seq<seq<Node>>, ghost owner: Owner, ghost b: nat)
    requires Rings(c, qs, owner) && b < |qs| && |qs[b]| > 0 && head == qs[b][0] && e !in owner
    modifies owner.Keys, e
    ensures Rings(c, qs[b := qs[b] + [e]], owner[e := b])
  {
    ghost var d := qs[b];
    assert RingOf(d, owner, b);
    assert head.prev == d[|d| - 1] && head in d && head.prev in d && d == [head] + d[1..];
    AddTail(e, head, d[1..]);
    assert [head] + d[1..] + [e] == d + [e];
    ghost var o := owner[e := b];
    forall p | 0 <= p < |qs| && p != b ensures RingOf(qs[p], o, p) {
      assert old(RingOf(qs[p], owner, p));
    }
  }

  /** sched_wake and sched_attach of a pending element. */
  method MoveTo(e: Node, head: Node, ghost c: seq<Node>, ghost qs: seq<seq<Node>>, ghost owner: Owner, ghost i: nat,
                ghost b: nat)
    returns (ghost owner': Owner)
    requires Rings(c, qs, owner) && 0 < i < |c| && e == c[i] && b < |qs| && |qs[b]| > 0 && head == qs[b][0]
    modifies owner.Keys
    ensures owner'.Keys == owner.Keys && Rings(c[..i] + c[i + 1..], qs[b := qs[b] + [e]], owner')
  {
    assert e in c && e in owner;
    hide RingOf, Rings;
    Detach(e, c, qs, owner, i);
    Append(e, head, c[..i] + c[i + 1..], qs, owner - {e}, b);
    owner' := (owner - {e})[e := b];
    assert owner'.Keys == owner.Keys;
  }

  // ---------------------------------------------------------------------------------
  // The walk

  /** Of the first k elements of s those that are not due. */
  ghost function Staying<T>(s: seq<T>, due: seq<bool>, k: nat): (r: seq<T>)
    requires k <= |s| == |due|
  {
    if k == 0 then [] else Staying(s, due, k - 1) + if due[k - 1] then [] else [s[k - 1]]
  }

  /** Of the first k elements of s those that are due and have priority p. */
  ghost function Going<T>(s: seq<T>, due: seq<bool>, prios: seq<nat>, p: nat, k: nat): (r: seq<T>)
    requires k <= |s| == |due| == |prios|
  {
    if k == 0 then []
    else Going(s, due, prios, p, k - 1) + if due[k - 1] && prios[k - 1] == p then [s[k - 1]] else []
  }

  /** The pending ring with head h after k turns. */
  ghost function Pending<T>(h: T, s: seq<T>, due: seq<bool>, k: nat): (r: seq<T>)
    requires k <= |s| == |due|
  {
    [h] + Staying(s, due, k) + s[k..]
  }

  /** The ready rings after k turns. */
  ghost function Ready<T>(qs: seq<seq<T>>, s: seq<T>, due: seq<bool>, prios: seq<nat>, k: nat): (r: seq<seq<T>>)
    requires k <= |s| == |due| == |prios|
    ensures |r| == |qs|
  {
    seq(|qs|, p requires 0 <= p < |qs| => qs[p] + Going(s, due, prios, p, k))
  }

  /** Where element k is in the pending ring after k turns. */
  ghost function Place<T>(s: seq<T>, due: seq<bool>, k: nat): (i: nat)
    requires k <= |s| == |due|
    ensures i > 0
  {
    1 + |Staying(s, due, k)|
  }

  lemma Cut<T>(q: seq<T>, x: T, t: seq<T>)
    ensures var p := q + ([x] + t); p[|q|] == x && p[..|q|] + p[|q| + 1..] == q + t
  {
    var p := q + ([x] + t);
    assert p[..|q|] == q && p[|q| + 1..] == t;
  }

  /** Turn k takes a due element out of the pending ring. */
  lemma PendingStep<T>(h: T, s: seq<T>, due: seq<bool>, k: nat)
    requires k < |s| == |due|
    ensures var p, i := Pending(h, s, due, k), Place(s, due, k);
            && i < |p| && p[i] == s[k]
            && Pending(h, s, due, k + 1) == if due[k] then p[..i] + p[i + 1..] else p
  {
    var q := [h] + Staying(s, due, k);
    assert s[k..] == [s[k]] + s[k + 1..];
    assert q + s[k..] == q + [s[k]] + s[k + 1..];
    assert due[k] ==> Staying(s, due, k + 1) == Staying(s, due, k);
    assert !due[k] ==> [h] + Staying(s, due, k + 1) == q + [s[k]];
    hide Staying;
    Cut(q, s[k], s[k + 1..]);
  }

  /** And puts it at the end of the ready ring of its priority. */
  lemma ReadyStep<T>(qs: seq<seq<T>>, s: seq<T>, due: seq<bool>, prios: seq<nat>, k: nat)
    requires k < |s| == |due| == |prios| && prios[k] < |qs|
    ensures var r, b := Ready(qs, s, due, prios, k), prios[k];
            Ready(qs, s, due, prios, k + 1) == if due[k] then r[b := r[b] + [s[k]]] else r
  {
    var r := Ready(qs, s, due, prios, k);
    var r', t := Ready(qs, s, due, prios, k + 1), if due[k] then r[prios[k] := r[prios[k]] + [s[k]]] else r;
    forall p | 0 <= p < |qs| ensures r'[p] == t[p] {
      var g := Going(s, due, prios, p, k);
      if due[k] && prios[k] == p {
        assert r'[p] == qs[p] + (g + [s[k]]) == qs[p] + g + [s[k]];
      } else {
        assert g + [] == g;
      }
    }
    assert |r'| == |t|;
  }

  lemma ReadyStart<T>(qs: seq<seq<T>>, s: seq<T>, due: seq<bool>, prios: seq<nat>)
    requires |s| == |due| == |prios|
    ensures Ready(qs, s, due, prios, 0) == qs
  {
    forall p | 0 <= p < |qs| ensures Ready(qs, s, due, prios, 0)[p] == qs[p] {
      assert qs[p] + [] == qs[p];
    }
  }

  /** What holds of the rings after k turns. */
  ghost predicate AfterTurns(h: Node, s: seq<Node>, qs: seq<seq<Node>>, due: seq<bool>, prios: seq<nat>, owner: Owner,
                             k: nat)
    reads owner.Keys
  {
    && k <= |s| == |due| == |prios| && (forall i | 0 <= i < |prios| :: prios[i] < |qs|)
    && Rings(Pending(h, s, due, k), Ready(qs, s, due, prios, k), owner)
  }

  /** Element k of the list, or the head behind the last one. */
  ghost function At(h: Node, s: seq<Node>, k: nat): (n: Node) {
    if k < |s| then s[k] else h
  }

  /** Before turn k, the element after the current one is the next of the list. */
  lemma NextSaved(h: Node, s: seq<Node>, qs: seq<seq<Node>>, due: seq<bool>, prios: seq<nat>, owner: Owner, k: nat)
    requires AfterTurns(h, s, qs, due, prios, owner, k) && k < |s|
    ensures s[k].next == At(h, s, k + 1)
  {
    var c, i := Pending(h, s, due, k), Place(s, due, k);
    PendingStep(h, s, due, k);
    assert Ring(c) && c[i].next == Succ(c, i);
    assert |c| == i + (|s| - k) && (k + 1 < |s| ==> c[i + 1] == s[k + 1]);
  }

  /** The walk comes back to the head after the last element and not before. */
  lemma Ended(h: Node, s: seq<Node>, qs: seq<seq<Node>>, due: seq<bool>, prios: seq<nat>, owner: Owner, k: nat)
    requires AfterTurns(h, s, qs, due, prios, owner, k)
    ensures At(h, s, k) == h <==> k == |s|
    ensures k == |s| ==> Rings([h] + Staying(s, due, k), Ready(qs, s, due, prios, k), owner)
  {
    if k < |s| {
      var c, i := Pending(h, s, due, k), Place(s, due, k);
      PendingStep(h, s, due, k);
      assert Ring(c) && c[0] == h && c[i] == s[k];
    } else {
      assert Pending(h, s, due, k) == [h] + Staying(s, due, k);
    }
  }

  /** One turn: sched_wake and sched_attach of a due element. */
  method Turn(e: Node, head: Node, d: bool, ghost h: Node, ghost s: seq<Node>, ghost qs: seq<seq<Node>>,
              ghost due: seq<bool>, ghost prios: seq<nat>, ghost owner: Owner, ghost k: nat)
    returns (ghost owner': Owner)
    requires AfterTurns(h, s, qs, due, prios, owner, k) && k < |s| && e == s[k] && d == due[k]
    requires |qs[prios[k]]| > 0 && head == qs[prios[k]][0]
    modifies owner.Keys
    ensures owner'.Keys == owner.Keys && AfterTurns(h, s, qs, due, prios, owner', k + 1)
  {
    owner' := owner;
    PendingStep(h, s, due, k);
    ReadyStep(qs, s, due, prios, k);
    ghost var c, rs, i, b := Pending(h, s, due, k), Ready(qs, s, due, prios, k), Place(s, due, k), prios[k];
    assert |rs[b]| > 0 && rs[b][0] == head;
    hide Rings, Pending, Ready, Place;
    if d {
      owner' := MoveTo(e, head, c, rs, owner, i, b);
    }
  }

  /** sched_pending_check: the pending ring keeps, in order, the tasks that are not due; each ready ring
      gets, at its end and in order, the due ones of its priority; and no node is lost. */
  method PendingCheck(h: Node, heads: seq<Node>, due: seq<bool>, prios: seq<nat>, ghost s: seq<Node>,
                      ghost qs: seq<seq<Node>>, ghost owner: Owner)
    returns (ghost owner': Owner)
    requires Rings([h] + s, qs, owner) && |due| == |prios| == |s| && |heads| == |qs|
    requires forall p | 0 <= p < |heads| :: |qs[p]| > 0 && qs[p][0] == heads[p]
    requires forall i | 0 <= i < |prios| :: prios[i] < |heads|
    modifies owner.Keys
    ensures owner'.Keys == owner.Keys
    ensures Rings([h] + Staying(s, due, |s|), Ready(qs, s, due, prios, |s|), owner')
  {
    assert Pending(h, s, due, 0) == [h] + s;
    ReadyStart(qs, s, due, prios);
    assert AfterTurns(h, s, qs, due, prios, owner, 0);
    owner' := owner;
    ghost var c := [h] + s;
    assert h.next == Succ(c, 0) == At(h, s, 0);
    hide AfterTurns, Rings;
    var pos, k := h.next, 0;
    if |s| > 0 {
      NextSaved(h, s, qs, due, prios, owner, 0);
    }
    var n := pos.next;
    while pos != h
      invariant k <= |s| && owner'.Keys == owner.Keys && AfterTurns(h, s, qs, due, prios, owner', k)
      invariant pos == At(h, s, k) && (k < |s| ==> n == At(h, s, k + 1))
      decreases |s| - k
    {
      owner' := Turn(pos, heads[prios[k]], due[k], h, s, qs, due, prios, owner', k);
      if k + 1 < |s| {
        NextSaved(h, s, qs, due, prios, owner', k + 1);
      }
      pos := n;
      n := n.next;
      k := k + 1;
    }
    Ended(h, s, qs, due, prios, owner', k);
  }

  // ---------------------------------------------------------------------------------
  // The switch

  /** list_del of element i of ready ring b. */
  method DetachReady(e: Node, ghost c: seq<Node>, ghost qs: seq<seq<Node>>, ghost owner: Owner, ghost b: nat,
                     ghost i: nat)
    requires Rings(c, qs, owner) && b < |qs| && 0 < i < |qs[b]| && e == qs[b][i]
    modifies owner.Keys
    ensures Rings(c, qs[b := qs[b][..i] + qs[b][i + 1..]], owner - {e})
  {
    ghost var q := qs[b];
    assert RingOf(q, owner, b);
    assert e.prev == q[i - 1] && e.next == Succ(q, i) && e in q && e.prev in q && e.next in q;
    Unlink(e, q, i);
    ghost var q' := q[..i] + q[i + 1..];
    assert e !in q' && forall n | n in q' :: n in q;
    ghost var o := owner - {e};
    forall p | 0 <= p < |qs| && p != b ensures RingOf(qs[p], o, p) {
      assert old(RingOf(qs[p], owner, p));
    }
  }

  /** list_add_tail to the pending ring of an element of no ring. */
  method AppendPending(e: Node, h: Node, ghost c: seq<Node>, ghost qs: seq<seq<Node>>, ghost owner: Owner)
    requires Rings(c, qs, owner) && |c| > 0 && h == c[0] && e !in owner
    modifies owner.Keys, e
    ensures Rings(c + [e], qs, owner[e := PENDING])
  {
    assert RingOf(c, owner, PENDING);
    assert h.prev == c[|c| - 1] && h in c && h.prev in c && c == [h] + c[1..];
    AddTail(e, h, c[1..]);
    assert [h] + c[1..] + [e] == c + [e];
    ghost var o := owner[e := PENDING];
    forall p | 0 <= p < |qs| ensures RingOf(qs[p], o, p) {
      assert old(RingOf(qs[p], owner, p));
    }
  }

  /** Where in q, from its place k on, the first element other than x is. */
  ghost function FirstOther<T>(q: seq<T>, x: T, k: nat): (i: nat)
    requires k <= |q|
    ensures k <= i <= |q| && (forall j | k <= j < i :: q[j] == x) && (i < |q| ==> q[i] != x)
    decreases |q| - k
  {
    if k < |q| && q[k] == x then FirstOther(q, x, k + 1) else k
  }

  /** The rings after the switch, for the element at place i of ready ring b. */
  ghost predicate Switched(c: seq<Node>, qs: seq<seq<Node>>, owner: Owner, b: nat, i: nat)
    requires b < |qs| && i < |qs[b]|
    reads owner.Keys
  {
    Rings(c + [qs[b][i]], qs[b := qs[b][..i] + qs[b][i + 1..]], owner)
  }

  /** The loop of schedule over ready ring b, with a saved next pointer: the first element that is not
      current leaves the ring for the end of the pending ring and becomes current; without one all
      stays as it is. */
  method SwitchWalk(h: Node, head: Node, cur: Node, ghost c: seq<Node>, ghost qs: seq<seq<Node>>, ghost owner: Owner,
                    ghost b: nat)
    returns (next: Node, ghost owner': Owner)
    requires Rings(c, qs, owner) && |c| > 0 && h == c[0] && b < |qs| && |qs[b]| > 0 && head == qs[b][0]
    modifies owner.Keys
    ensures owner'.Keys == owner.Keys
    ensures var q := qs[b];
            var i := FirstOther(q, cur, 1);
            if i < |q| then next == q[i] && Switched(c, qs, owner', b, i) else next == cur && Rings(c, qs, owner')
  {
    next, owner' := cur, owner;
    ghost var q := qs[b];
    assert RingOf(q, owner, b);
    var pos := head.next;
    var n := pos.next;
    ghost var i := 1;
    while pos != head
      invariant 1 <= i <= |q| && FirstOther(q, cur, 1) == FirstOther(q, cur, i) && Rings(c, qs, owner)
      invariant pos == (if i < |q| then q[i] else head) && (i < |q| ==> n == Succ(q, i))
      invariant next == cur && owner' == owner
      decreases |q| - i
    {
      if pos != cur {
        next := pos;
        owner' := MoveToPending(pos, h, c, qs, owner, b, i);
        break;
      }
      assert RingOf(q, owner, b);
      i := i + 1;
      pos := n;
      n := n.next;
    }
  }

  method MoveToPending(e: Node, h: Node, ghost c: seq<Node>, ghost qs: seq<seq<Node>>, ghost owner: Owner,
                       ghost b: nat, ghost i: nat)
    returns (ghost owner': Owner)
    requires Rings(c, qs, owner) && |c| > 0 && h == c[0] && b < |qs| && 0 < i < |qs[b]| && e == qs[b][i]
    modifies owner.Keys
    ensures owner'.Keys == owner.Keys && Switched(c, qs, owner', b, i)
  {
    assert RingOf(qs[b], owner, b) && e in qs[b] && e in owner;
    hide RingOf, Rings;
    DetachReady(e, c, qs, owner, b, i);
    AppendPending(e, h, c, qs[b := qs[b][..i] + qs[b][i + 1..]], owner - {e});
    owner' := (owner - {e})[e := PENDING];
    assert owner'.Keys == owner.Keys;
  }

  // ---------------------------------------------------------------------------------
  // The walk and the scheduler's lists

  /** Which pending tasks are due when their turn comes. */
  ghost function DueAt(s: Q.Sched, clock: seq<int>): (d: seq<bool>)
    requires |clock| == |s.pending|
    ensures |d| == |clock|
  {
    seq(|clock|, i requires 0 <= i < |clock| => s.WakeTime(s.pending[i]) < clock[i])
  }

  ghost function Prios(q: seq<Q.Task>): (r: seq<nat>)
    ensures |r| == |q|
  {
    seq(|q|, i requires 0 <= i < |q| => q[i].prio)
  }

  lemma {:induction false} StayingIn<T>(s: seq<T>, due: seq<bool>, k: nat, x: T)
    requires k <= |s| == |due| && x !in s[..k]
    ensures x !in Staying(s, due, k)
  {
    if k > 0 {
      assert s[..k] == s[..k - 1] + [s[k - 1]];
      StayingIn(s, due, k - 1, x);
    }
  }

  /** m is what k turns make of s. */
  ghost predicate Walked(s: Q.Sched, clock: seq<int>, k: nat, m: Q.Sched) {
    && Q.Placed(s) && k <= |s.pending| == |clock| && m.wake == s.wake
    && m.pending == Staying(s.pending, DueAt(s, clock), k) + s.pending[k..]
    && m.ready == Ready(s.ready, s.pending, DueAt(s, clock), Prios(s.pending), k)
  }

  lemma WakeWalked(s: Q.Sched, clock: seq<int>, k: nat, m: Q.Sched)
    requires Walked(s, clock, k, m) && k < |s.pending|
    ensures Walked(s, clock, k + 1, Q.Wake(m, s.pending[k], clock[k]))
  {
    var l, due := s.pending, DueAt(s, clock);
    var a, x, b := Staying(l, due, k), l[k], l[k + 1..];
    assert x in l && l[k..] == [x] + b && a + [x] + b == m.pending && l[k..][1..] == b;
    StayingIn(l, due, k, x);
    Q.TakeOut(a, x, l[k..]);
    ReadyStep(s.ready, l, due, Prios(l), k);
    assert Staying(l, due, k + 1) == if due[k] then a else a + [x];
  }

  lemma {:induction false} CheckFrom(s: Q.Sched, clock: seq<int>, k: nat, m: Q.Sched)
    requires Walked(s, clock, k, m)
    ensures var r, due := Q.Check(m, s.pending[k..], clock[k..]), DueAt(s, clock);
            && r.pending == Staying(s.pending, due, |clock|)
            && r.ready == Ready(s.ready, s.pending, due, Prios(s.pending), |clock|)
    decreases |clock| - k
  {
    if k < |clock| {
      WakeWalked(s, clock, k, m);
      CheckFrom(s, clock, k + 1, Q.Wake(m, s.pending[k], clock[k]));
      assert s.pending[k..][1..] == s.pending[k + 1..] && clock[k..][1..] == clock[k + 1..];
    } else {
      assert m.pending + [] == m.pending;
    }
  }

  /** What the walk leaves on the rings is what the scheduler's lists become. */
  lemma CheckIsWalk(s: Q.Sched, clock: seq<int>)
    requires Q.Placed(s) && |clock| == |s.pending|
    ensures var r, due := Q.Check(s, s.pending, clock), DueAt(s, clock);
            && r.pending == Staying(s.pending, due, |clock|)
            && r.ready == Ready(s.ready, s.pending, due, Prios(s.pending), |clock|)
  {
    ReadyStart(s.ready, s.pending, DueAt(s, clock), Prios(s.pending));
    assert s.pending[0..] == s.pending && clock[0..] == clock && [] + s.pending == s.pending;
    CheckFrom(s, clock, 0, s);
  }

  /** The nodes c, in order, are those of the tasks q. */
  ghost predicate Shows(c: seq<Node>, q: seq<Q.Task>, of: map<Node, Q.Task>) {
    |c| == |q| && forall i | 0 <= i < |c| :: c[i] in of && of[c[i]] == q[i]
  }

  lemma {:induction false} ShowsStaying(c: seq<Node>, q: seq<Q.Task>, of: map<Node, Q.Task>, due: seq<bool>, k: nat)
    requires Shows(c, q, of) && k <= |c| == |due|
    ensures Shows(Staying(c, due, k), Staying(q, due, k), of)
  {
    if k > 0 {
      ShowsStaying(c, q, of, due, k - 1);
    }
  }

  lemma {:induction false} ShowsGoing(c: seq<Node>, q: seq<Q.Task>, of: map<Node, Q.Task>, due: seq<bool>,
                                      prios: seq<nat>, p: nat, k: nat)
    requires Shows(c, q, of) && k <= |c| == |due| == |prios|
    ensures Shows(Going(c, due, prios, p, k), Going(q, due, prios, p, k), of)
  {
    if k > 0 {
      ShowsGoing(c, q, of, due, prios, p, k - 1);
    }
  }

  lemma ShowsAfter(t: seq<Node>, r: seq<Q.Task>, g: seq<Node>, l: seq<Q.Task>, of: map<Node, Q.Task>)
    requires |t| > 0 && Shows(t[1..], r, of) && Shows(g, l, of)
    ensures Shows((t + g)[1..], r + l, of)
  {
    assert (t + g)[1..] == t[1..] + g;
  }

  lemma ReadyShows(c: seq<Node>, q: seq<Q.Task>, qs: seq<seq<Node>>, ready: seq<seq<Q.Task>>,
                   of: map<Node, Q.Task>, due: seq<bool>, prios: seq<nat>, p: nat)
    requires Shows(c, q, of) && |c| == |due| == |prios| && p < |qs| == |ready|
    requires |qs[p]| > 0 && Shows(qs[p][1..], ready[p], of)
    ensures var t := Ready(qs, c, due, prios, |c|)[p];
            && |t| > 0 && t[0] == qs[p][0]
            && Shows(t[1..], Ready(ready, q, due, prios, |c|)[p], of)
  {
    ShowsGoing(c, q, of, due, prios, p, |c|);
    ShowsAfter(qs[p], ready[p], Going(c, due, prios, p, |c|), Going(q, due, prios, p, |c|), of);
  }

  /** When the rings show the scheduler's lists before the walk, they show the lists of Check after it. */
  lemma WalkIsCheck(s: Q.Sched, clock: seq<int>, c: seq<Node>, qs: seq<seq<Node>>, of: map<Node, Q.Task>)
    requires Q.Placed(s) && |clock| == |s.pending| && Shows(c, s.pending, of) && |qs| == |s.ready|
    requires forall p | 0 <= p < |qs| :: |qs[p]| > 0 && Shows(qs[p][1..], s.ready[p], of)
    ensures var r, due, prios := Q.Check(s, s.pending, clock), DueAt(s, clock), Prios(s.pending);
            && Shows(Staying(c, due, |c|), r.pending, of)
            && var rs := Ready(qs, c, due, prios, |c|);
               forall p | 0 <= p < |qs| ::
                 |rs[p]| > 0 && rs[p][0] == qs[p][0] && Shows(rs[p][1..], r.ready[p], of)
  {
    var due, prios := DueAt(s, clock), Prios(s.pending);
    CheckIsWalk(s, clock);
    ShowsStaying(c, s.pending, of, due, |c|);
    hide Shows, Ready, Q.Check, Q.Placed;
    forall p | 0 <= p < |qs|
      ensures var t := Ready(qs, c, due, prios, |c|)[p];
              |t| > 0 && t[0] == qs[p][0] && Shows(t[1..], Q.Check(s, s.pending, clock).ready[p], of) {
      ReadyShows(c, s.pending, qs, s.ready, of, due, prios, p);
    }
  }

  /** One node for each task. */
  ghost predicate OneEach(of: map<Node, Q.Task>) {
    forall m, n | m in of && n in of && of[m] == of[n] :: m == n
  }

  lemma {:induction false} PickShown(q: seq<Node>, l: seq<Q.Task>, of: map<Node, Q.Task>, cur: Node, k: nat)
    requires OneEach(of) && cur in of && 1 <= k <= |q| == |l| + 1 && Shows(q[1..], l, of)
    ensures FirstOther(q, cur, k) == k + Q.Pick(l[k - 1..], of[cur])
    decreases |q| - k
  {
    if k < |q| {
      assert q[1..][k - 1] == q[k] && l[k - 1..][0] == l[k - 1];
      if q[k] == cur {
        PickShown(q, l, of, cur, k + 1);
        assert l[k - 1..][1..] == l[k..];
      }
    }
  }

  lemma ShowsWithout(t: seq<Node>, l: seq<Q.Task>, of: map<Node, Q.Task>, i: nat)
    requires 1 <= i < |t| == |l| + 1 && Shows(t[1..], l, of)
    ensures Shows((t[..i] + t[i + 1..])[1..], l[..i - 1] + l[i..], of) && t[i] in of && of[t[i]] == l[i - 1]
  {
    var r := t[..i] + t[i + 1..];
    assert t[1..][i - 1] == t[i];
    forall j | 0 <= j < |r| - 1 ensures r[1..][j] in of && of[r[1..][j]] == (l[..i - 1] + l[i..])[j] {
      assert r[1..][j] == if j < i - 1 then t[1..][j] else t[1..][j + 1];
    }
  }

  /** Rings that show the scheduler's lists before the switch show those of Dispatch after it. */
  lemma SwitchIsDispatch(s: Q.Sched, b: nat, c: seq<Node>, qs: seq<seq<Node>>, of: map<Node, Q.Task>, cur: Node)
    requires OneEach(of) && cur in of && of[cur] == s.current && b < |qs| == |s.ready|
    requires |c| > 0 && Shows(c[1..], s.pending, of)
    requires forall p | 0 <= p < |qs| :: |qs[p]| > 0 && Shows(qs[p][1..], s.ready[p], of)
    ensures var r, q := Q.Dispatch(s, b), qs[b];
            var i := FirstOther(q, cur, 1);
            if i < |q| then
              && q[i] in of && of[q[i]] == r.current && Shows((c + [q[i]])[1..], r.pending, of)
              && var rs := qs[b := q[..i] + q[i + 1..]];
                 forall p | 0 <= p < |rs| :: |rs[p]| > 0 && rs[p][0] == qs[p][0] && Shows(rs[p][1..], r.ready[p], of)
            else
              r == s
  {
    var q := qs[b];
    var i := FirstOther(q, cur, 1);
    assert Shows(q[1..], s.ready[b], of);
    PickShown(q, s.ready[b], of, cur, 1);
    assert s.ready[b][0..] == s.ready[b];
    if i < |q| {
      ShowsWithout(q, s.ready[b], of, i);
      assert (c + [q[i]])[1..] == c[1..] + [q[i]];
    }
  }

  /** The rings with these heads hold the scheduler's lists. */
  ghost predicate HoldLists(s: Q.Sched, h: Node, heads: seq<Node>, c: seq<Node>, qs: seq<seq<Node>>,
                            of: map<Node, Q.Task>)
  {
    && |c| > 0 && c[0] == h && Shows(c[1..], s.pending, of) && |qs| == |s.ready| == |heads|
    && forall p | 0 <= p < |qs| :: |qs[p]| > 0 && qs[p][0] == heads[p] && Shows(qs[p][1..], s.ready[p], of)
  }

  lemma CheckHolds(s: Q.Sched, clock: seq<int>, h: Node, heads: seq<Node>, l: seq<Node>, qs: seq<seq<Node>>,
                   of: map<Node, Q.Task>)
    requires Q.Placed(s) && |clock| == |s.pending| == |l| && HoldLists(s, h, heads, [h] + l, qs, of)
    ensures var due, prios := DueAt(s, clock), Prios(s.pending);
            HoldLists(Q.Check(s, s.pending, clock), h, heads, [h] + Staying(l, due, |l|),
                      Ready(qs, l, due, prios, |l|), of)
  {
    assert ([h] + l)[1..] == l;
    var c := Staying(l, DueAt(s, clock), |l|);
    assert ([h] + c)[1..] == c;
    WalkIsCheck(s, clock, l, qs, of);
    hide Shows, Ready, Staying, Q.Placed;
  }

  lemma DispatchHolds(s: Q.Sched, b: nat, h: Node, heads: seq<Node>, c: seq<Node>, qs: seq<seq<Node>>,
                      of: map<Node, Q.Task>, cur: Node)
    requires OneEach(of) && cur in of && of[cur] == s.current && b < |qs| && HoldLists(s, h, heads, c, qs, of)
    ensures var r, q := Q.Dispatch(s, b), qs[b];
            var i := FirstOther(q, cur, 1);
            if i < |q| then
              && q[i] in of && of[q[i]] == r.current
              && HoldLists(r, h, heads, c + [q[i]], qs[b := q[..i] + q[i + 1..]], of)
            else
              r == s
  {
    SwitchIsDispatch(s, b, c, qs, of, cur);
    hide Shows, OneEach, FirstOther;
  }

  /** The pending check on rings that hold the scheduler's lists. */
  method CheckRings(h: Node, heads: seq<Node>, due: seq<bool>, prios: seq<nat>, ghost s: Q.Sched,
                    ghost clock: seq<int>, ghost l: seq<Node>, ghost qs: seq<seq<Node>>, ghost of: map<Node, Q.Task>,
                    ghost owner: Owner)
    returns (ghost c': seq<Node>, ghost qs': seq<seq<Node>>, ghost owner': Owner)
    requires Rings([h] + l, qs, owner) && HoldLists(s, h, heads, [h] + l, qs, of)
    requires Q.Placed(s) && |clock| == |s.pending| == |l| && due == DueAt(s, clock) && prios == Prios(s.pending)
    modifies owner.Keys
    ensures owner'.Keys == owner.Keys && Rings(c', qs', owner')
    ensures HoldLists(Q.Check(s, s.pending, clock), h, heads, c', qs', of)
  {
    assert forall i | 0 <= i < |prios| :: s.pending[i] in s.pending;
    hide Rings, Shows, Ready, Staying, Q.Check;
    CheckHolds(s, clock, h, heads, l, qs, of);
    c', qs' := [h] + Staying(l, due, |l|), Ready(qs, l, due, prios, |l|);
    owner' := PendingCheck(h, heads, due, prios, l, qs, owner);
  }

  /** The switch on rings that hold the scheduler's lists. */
  method SwitchRings(h: Node, heads: seq<Node>, cur: Node, b: nat, ghost s: Q.Sched, ghost c: seq<Node>,
                     ghost qs: seq<seq<Node>>, ghost of: map<Node, Q.Task>, ghost owner: Owner)
    returns (next: Node, ghost c': seq<Node>, ghost qs': seq<seq<Node>>, ghost owner': Owner)
    requires Rings(c, qs, owner) && HoldLists(s, h, heads, c, qs, of) && b < |heads|
    requires OneEach(of) && cur in of && of[cur] == s.current
    modifies owner.Keys
    ensures owner'.Keys == owner.Keys && Rings(c', qs', owner')
    ensures HoldLists(Q.Dispatch(s, b), h, heads, c', qs', of)
    ensures next in of && of[next] == Q.Dispatch(s, b).current
  {
    DispatchHolds(s, b, h, heads, c, qs, of, cur);
    hide Rings, Shows, OneEach, FirstOther, Q.Dispatch;
    c', qs' := c, qs;
    next, owner' := SwitchWalk(h, heads[b], cur, c, qs, owner, b);
    ghost var q := qs[b];
    ghost var i := FirstOther(q, cur, 1);
    if i < |q| {
      c', qs' := c + [q[i]], qs[b := q[..i] + q[i + 1..]];
    }
  }

  /** schedule on the rings, b being the priority that the bitmap gives after the pending check: rings that
      hold the scheduler's lists before hold the lists of Schedule after, and the current task is its. */
  method ScheduleRings(h: Node, heads: seq<Node>, cur: Node, due: seq<bool>, prios: seq<nat>, b: nat,
                       ghost s: Q.Sched, ghost clock: seq<int>, ghost l: seq<Node>, ghost qs: seq<seq<Node>>,
                       ghost of: map<Node, Q.Task>, ghost owner: Owner)
    returns (next: Node, ghost c': seq<Node>, ghost qs': seq<seq<Node>>, ghost owner': Owner)
    requires Rings([h] + l, qs, owner) && HoldLists(s, h, heads, [h] + l, qs, of)
    requires Q.Placed(s) && |clock| == |s.pending| == |l| && due == DueAt(s, clock) && prios == Prios(s.pending)
    requires OneEach(of) && cur in of && of[cur] == s.current
    requires b == Q.First(Q.Check(s, s.pending, clock).bits, 0)
    modifies owner.Keys
    ensures owner'.Keys == owner.Keys && Rings(c', qs', owner')
    ensures HoldLists(Q.Schedule(s, clock), h, heads, c', qs', of)
    ensures next in of && of[next] == Q.Schedule(s, clock).current
  {
    assert b < |heads|;
    Q.CheckCurrent(s, s.pending, clock);
    hide Rings, HoldLists, OneEach, Q.Check, Q.Dispatch;
    c', qs', owner' := CheckRings(h, heads, due, prios, s, clock, l, qs, of, owner);
    next, c', qs', owner' := SwitchRings(h, heads, cur, b, Q.Check(s, s.pending, clock), c', qs', of, owner');
  }
}
