/** Constructors do run: when calls wait, and what a thread that is not kept waiting achieves. */
module InitProgress {
  import opened Basics
  import opened InitFini

  /** Thread u is in the constructor of d. */
  ghost predicate Constructs(s: State, u: nat, d: nat) {
    u > 0 && RunsBelow(s.Calls(u), |s.Calls(u)|, d)
  }

  ghost predicate OtherConstructs(s: State, t: nat, d: nat) {
    exists u :: u != t && Constructs(s, u, d)
  }

  lemma VisitorIs(withFini: set<nat>, s: State, t: nat, d: nat)
    requires Inv(withFini, s)
    ensures s.Visitor(d) != 0 && s.Visitor(d) != t <==> OtherConstructs(s, t, d)
  {
    var v := s.Visitor(d);
    if v != 0 && v != t {
      assert ThreadOk(s, v);
      assert Constructs(s, v, d);
    }
    if u :| u != t && Constructs(s, u, d) {
      assert ThreadOk(s, u);
    }
  }

  /** In every run, a test of do_init_fini goes on to wait exactly when another thread is in the
      constructor of the object or the shutdown is announced; else it goes on to decide. */
  lemma InitWaitsIff(withFini: set<nat>, ss: seq<State>, acts: seq<(nat, Action)>, k: nat, t: nat)
    requires Run(withFini, ss, acts) && k < |acts| && acts[k] == (t, Go) && Busy(ss[k], t, Test)
    requires Top(ss[k], t).i < |Top(ss[k], t).queue|
    ensures var f := Top(ss[k], t);
            && ss[k + 1].Calls(t) != []
            && Top(ss[k + 1], t) ==
               Init(f.queue, f.i, if ss[k].down || OtherConstructs(ss[k], t, f.queue[f.i]) then Wait else Decide)
            && ss[k + 1].holder == (if Top(ss[k + 1], t).pc == Wait then 0 else ss[k].holder)
  {
    RunKeepsInv(withFini, ss, acts, k);
    var f := Top(ss[k], t);
    VisitorIs(withFini, ss[k], t, f.queue[f.i]);
    hide Inv;
    assert Enabled(ss[k], t, Go) && ss[k + 1] == Next(withFini, ss[k], t, Go);
  }

  /** A call that waits tests again, at the same place, when it gets the lock. */
  lemma TestsAgain(withFini: set<nat>, ss: seq<State>, acts: seq<(nat, Action)>, k: nat, t: nat)
    requires Run(withFini, ss, acts) && k < |acts| && acts[k] == (t, Go) && ss[k].Calls(t) != []
    requires Top(ss[k], t).pc == Wait
    ensures var f := Top(ss[k], t);
            && ss[k + 1].holder == t && ss[k + 1].Calls(t) != []
            && Top(ss[k + 1], t) == if f.Init? then Init(f.queue, f.i, Test) else Exit(f.k, Test)
  {
    assert Enabled(ss[k], t, Go) && ss[k + 1] == Next(withFini, ss[k], t, Go);
  }

  /** A test of the exit call waits exactly when another thread is in the constructor of the object. */
  lemma ExitWaitsIff(withFini: set<nat>, ss: seq<State>, acts: seq<(nat, Action)>, k: nat, t: nat)
    requires Run(withFini, ss, acts) && k < |acts| && acts[k] == (t, Go) && ss[k].Calls(t) != []
    requires var f := Top(ss[k], t); f.Exit? && f.pc == Test && f.k < |ss[k].fini|
    ensures var f := Top(ss[k], t);
            && ss[k + 1].Calls(t) != []
            && Top(ss[k + 1], t) ==
               (if OtherConstructs(ss[k], t, ss[k].fini[f.k]) then Exit(f.k, Wait) else Exit(f.k + 1, Test))
            && ss[k + 1].finis == ss[k].finis +
               (if Top(ss[k + 1], t).pc == Test && ss[k].fini[f.k] in ss[k].constructed then [ss[k].fini[f.k]] else [])
            && ss[k + 1].holder == (if Top(ss[k + 1], t).pc == Wait then 0 else ss[k].holder)
  {
    RunKeepsInv(withFini, ss, acts, k);
    VisitorIs(withFini, ss[k], t, ss[k].fini[Top(ss[k], t).k]);
    hide Inv;
    assert Enabled(ss[k], t, Go) && ss[k + 1] == Next(withFini, ss[k], t, Go);
  }

  // ---------------------------------------------------------------------------------
  // One thread alone

  /** Thread t goes through the states ss. */
  ghost predicate Path(withFini: set<nat>, t: nat, ss: seq<State>, acts: seq<(nat, Action)>) {
    && |ss| == |acts| + 1
    && forall i | 0 <= i < |acts| ::
         acts[i].0 == t && Enabled(ss[i], t, acts[i].1) && ss[i + 1] == Next(withFini, ss[i], t, acts[i].1)
  }

  lemma Longer(withFini: set<nat>, t: nat, ss: seq<State>, acts: seq<(nat, Action)>, a: Action)
    returns (ss': seq<State>, acts': seq<(nat, Action)>)
    requires Path(withFini, t, ss, acts) && |ss| > 0 && Enabled(ss[|ss| - 1], t, a)
    ensures ss' == ss + [Next(withFini, ss[|ss| - 1], t, a)] && acts' == acts + [(t, a)]
    ensures Path(withFini, t, ss', acts') && ss'[0] == ss[0] && acts <= acts'
  {
    ss', acts' := ss + [Next(withFini, ss[|ss| - 1], t, a)], acts + [(t, a)];
    forall i | 0 <= i < |acts'|
      ensures && acts'[i].0 == t && Enabled(ss'[i], t, acts'[i].1)
              && ss'[i + 1] == Next(withFini, ss'[i], t, acts'[i].1)
    {
      if i < |acts| {
        assert ss'[i] == ss[i] && ss'[i + 1] == ss[i + 1] && acts'[i] == acts[i];
      }
    }
  }

  /** The objects among the first k of q that are new: neither constructed nor under construction in s, and
      without repeats, in the order of q. */
  ghost function Fresh(s: State, q: seq<nat>, k: nat): (r: seq<nat>)
    requires k <= |q|
  {
    if k == 0 then []
    else
      var d := q[k - 1];
      Fresh(s, q, k - 1) +
      if d in q[..k - 1] || d in s.constructed || s.Visitor(d) != 0 then [] else [d]
  }

  lemma {:induction false} FreshIs(s: State, q: seq<nat>, k: nat)
    requires k <= |q|
    ensures forall d :: d in Fresh(s, q, k) <==> d in q[..k] && d !in s.constructed && s.Visitor(d) == 0
    ensures NoDup(Fresh(s, q, k))
  {
    if k > 0 {
      FreshIs(s, q, k - 1);
      assert q[..k] == q[..k - 1] + [q[k - 1]];
    }
  }

  /** Since state s0 the constructors of x have run, in this order. */
  ghost predicate Done(withFini: set<nat>, s0: State, s: State, x: seq<nat>) {
    && (forall d :: s.Visitor(d) == s0.Visitor(d))
    && s.starts == s0.starts + x && s.fini == Reversed(withFini, x) + s0.fini
    && (forall d :: d in s.constructed <==> d in s0.constructed || d in x)
  }

  /** The calls of t are now fs; no other thread's are changed, and no exit call has moved. */
  ghost predicate Calling(s0: State, s: State, t: nat, fs: seq<Frame>) {
    && s.Calls(t) == fs && (forall u: nat | u != t :: s.Calls(u) == s0.Calls(u))
    && s.down == s0.down && s.exiter == s0.exiter && s.finis == s0.finis
  }

  /** Since state s0, thread t has called do_init_fini(q), is about to test place i and has done what is
      before it. */
  ghost predicate At(withFini: set<nat>, s0: State, s: State, t: nat, q: seq<nat>, i: nat) {
    && i <= |q| && s.holder == t && Calling(s0, s, t, s0.Calls(t) + [Init(q, i, Test)])
    && Done(withFini, s0, s, Fresh(s0, q, i))
  }

  /** Nothing keeps thread t waiting in a call for q. */
  ghost predicate Free(s: State, t: nat, q: seq<nat>) {
    && t > 0 && s.holder == 0 && !s.down && (s.Calls(t) == [] || Top(s, t).pc == Body)
    && forall d | d in q :: s.Visitor(d) == 0 || s.Visitor(d) == t
  }

  ghost predicate Shares(s: State, visitor: map<nat, nat>, constructed: set<nat>, fini: seq<nat>, starts: seq<nat>,
                         holder: nat)
  {
    && s.visitor == visitor && s.constructed == constructed && s.fini == fini && s.starts == starts
    && s.holder == holder
  }

  lemma Retopped(s: State, t: nat, base: seq<Frame>, f: Frame, g: Frame)
    requires s.Calls(t) == base + [f]
    ensures Top(s, t) == f && Calling(s, s.WithTop(t, g), t, base + [g])
  {
    assert s.Calls(t)[..|s.Calls(t)| - 1] == base;
  }

  // The steps of do_init_fini for an object that nobody else constructs.

  lemma TestStep(withFini: set<nat>, s: State, t: nat, base: seq<Frame>, q: seq<nat>, i: nat) returns (n: State)
    requires t > 0 && s.Calls(t) == base + [Init(q, i, Test)] && i < |q| && !s.down
    requires s.Visitor(q[i]) == 0 || s.Visitor(q[i]) == t
    ensures Enabled(s, t, Go) && n == Next(withFini, s, t, Go) && Calling(s, n, t, base + [Init(q, i, Decide)])
    ensures Shares(n, s.visitor, s.constructed, s.fini, s.starts, s.holder)
  {
    Retopped(s, t, base, Init(q, i, Test), Init(q, i, Decide));
    n := Next(withFini, s, t, Go);
  }

  lemma DecideSkip(withFini: set<nat>, s: State, t: nat, base: seq<Frame>, q: seq<nat>, i: nat) returns (n: State)
    requires t > 0 && s.Calls(t) == base + [Init(q, i, Decide)] && i < |q|
    requires s.Visitor(q[i]) != 0 || q[i] in s.constructed
    ensures Enabled(s, t, Go) && n == Next(withFini, s, t, Go) && Calling(s, n, t, base + [Init(q, i + 1, Test)])
    ensures Shares(n, s.visitor, s.constructed, s.fini, s.starts, s.holder)
  {
    Retopped(s, t, base, Init(q, i, Decide), Init(q, i + 1, Test));
    n := Next(withFini, s, t, Go);
  }

  lemma DecideStart(withFini: set<nat>, s: State, t: nat, base: seq<Frame>, q: seq<nat>, i: nat) returns (n: State)
    requires t > 0 && s.Calls(t) == base + [Init(q, i, Decide)] && i < |q|
    requires s.Visitor(q[i]) == 0 && q[i] !in s.constructed
    ensures Enabled(s, t, Go) && n == Next(withFini, s, t, Go) && Calling(s, n, t, base + [Init(q, i, Link)])
    ensures Shares(n, s.visitor[q[i] := t], s.constructed, s.fini, s.starts + [q[i]], s.holder)
  {
    var r := s.(visitor := s.visitor[q[i] := t], starts := s.starts + [q[i]]);
    Retopped(s, t, base, Init(q, i, Decide), Init(q, i, Link));
    Retopped(r, t, base, Init(q, i, Decide), Init(q, i, Link));
    n := Next(withFini, s, t, Go);
  }

  lemma LinkStep(withFini: set<nat>, s: State, t: nat, base: seq<Frame>, q: seq<nat>, i: nat) returns (n: State)
    requires t > 0 && s.Calls(t) == base + [Init(q, i, Link)] && i < |q|
    ensures Enabled(s, t, Go) && n == Next(withFini, s, t, Go) && Calling(s, n, t, base + [Init(q, i, Body)])
    ensures Shares(n, s.visitor, s.constructed, if q[i] in withFini then [q[i]] + s.fini else s.fini, s.starts, 0)
  {
    var r := s.(fini := if q[i] in withFini then [q[i]] + s.fini else s.fini, holder := 0);
    Retopped(s, t, base, Init(q, i, Link), Init(q, i, Body));
    Retopped(r, t, base, Init(q, i, Link), Init(q, i, Body));
    n := Next(withFini, s, t, Go);
  }

  lemma BodyStep(withFini: set<nat>, s: State, t: nat, base: seq<Frame>, q: seq<nat>, i: nat) returns (n: State)
    requires t > 0 && s.Calls(t) == base + [Init(q, i, Body)] && i < |q|
    ensures Enabled(s, t, Go) && n == Next(withFini, s, t, Go) && Calling(s, n, t, base + [Init(q, i, Relock)])
    ensures Shares(n, s.visitor, s.constructed, s.fini, s.starts, s.holder)
  {
    Retopped(s, t, base, Init(q, i, Body), Init(q, i, Relock));
    n := Next(withFini, s, t, Go);
  }

  lemma RelockStep(withFini: set<nat>, s: State, t: nat, base: seq<Frame>, q: seq<nat>, i: nat) returns (n: State)
    requires t > 0 && s.Calls(t) == base + [Init(q, i, Relock)] && i < |q| && s.holder == 0
    ensures Enabled(s, t, Go) && n == Next(withFini, s, t, Go) && Calling(s, n, t, base + [Init(q, i, Finish)])
    ensures Shares(n, s.visitor[q[i] := 0], s.constructed, s.fini, s.starts, t)
  {
    var r := s.(holder := t, visitor := s.visitor[q[i] := 0]);
    Retopped(s, t, base, Init(q, i, Relock), Init(q, i, Finish));
    Retopped(r, t, base, Init(q, i, Relock), Init(q, i, Finish));
    n := Next(withFini, s, t, Go);
  }

  lemma FinishStep(withFini: set<nat>, s: State, t: nat, base: seq<Frame>, q: seq<nat>, i: nat) returns (n: State)
    requires t > 0 && s.Calls(t) == base + [Init(q, i, Finish)] && i < |q|
    ensures Enabled(s, t, Go) && n == Next(withFini, s, t, Go) && Calling(s, n, t, base + [Init(q, i + 1, Test)])
    ensures Shares(n, s.visitor, s.constructed + {q[i]}, s.fini, s.starts, s.holder)
  {
    var r := s.(constructed := s.constructed + {q[i]});
    Retopped(s, t, base, Init(q, i, Finish), Init(q, i + 1, Test));
    Retopped(r, t, base, Init(q, i, Finish), Init(q, i + 1, Test));
    n := Next(withFini, s, t, Go);
  }

  lemma SkipState(withFini: set<nat>, s0: State, s: State, t: nat, q: seq<nat>, i: nat) returns (n: State, m: State)
    requires Free(s0, t, q) && i < |q| && At(withFini, s0, s, t, q, i)
    requires q[i] in q[..i] || q[i] in s0.constructed || s0.Visitor(q[i]) != 0
    ensures Enabled(s, t, Go) && n == Next(withFini, s, t, Go)
    ensures Enabled(n, t, Go) && m == Next(withFini, n, t, Go) && At(withFini, s0, m, t, q, i + 1)
  {
    var base, x := s0.Calls(t), Fresh(s0, q, i);
    FreshIs(s0, q, i);
    assert q[i] in q && Fresh(s0, q, i + 1) == x;
    hide Fresh, Next, Enabled, Reversed;
    n := TestStep(withFini, s, t, base, q, i);
    m := DecideSkip(withFini, n, t, base, q, i);
    assert Done(withFini, s0, m, x) by {
      assert forall d :: m.Visitor(d) == s.Visitor(d);
    }
  }

  lemma Skips(withFini: set<nat>, s0: State, t: nat, q: seq<nat>, i: nat, ss: seq<State>, acts: seq<(nat, Action)>)
    returns (ss': seq<State>, acts': seq<(nat, Action)>)
    requires Free(s0, t, q) && i < |q| && Path(withFini, t, ss, acts) && |ss| > 0
    requires At(withFini, s0, ss[|ss| - 1], t, q, i)
    requires q[i] in q[..i] || q[i] in s0.constructed || s0.Visitor(q[i]) != 0
    ensures Path(withFini, t, ss', acts') && |ss'| > 0 && ss'[0] == ss[0] && acts <= acts'
    ensures At(withFini, s0, ss'[|ss'| - 1], t, q, i + 1)
  {
    hide At, Free, Next, Enabled, Path;
    var n, m := SkipState(withFini, s0, ss[|ss| - 1], t, q, i);
    ss', acts' := Longer(withFini, t, ss, acts, Go);
    ss', acts' := Longer(withFini, t, ss', acts', Go);
  }

  lemma {:induction false} ReversedMore(withFini: set<nat>, s: seq<nat>, d: nat)
    ensures Reversed(withFini, s + [d]) == (if d in withFini then [d] else []) + Reversed(withFini, s)
  {
    assert (s + [d])[..|s|] == s;
  }

  /** From the start of a constructor to its end, the thread being left alone. */
  lemma BuildSteps(withFini: set<nat>, s: State, t: nat, base: seq<Frame>, q: seq<nat>, i: nat, ss: seq<State>,
                   acts: seq<(nat, Action)>)
    returns (ss': seq<State>, acts': seq<(nat, Action)>, n: State)
    requires t > 0 && s.Calls(t) == base + [Init(q, i, Link)] && i < |q|
    requires Path(withFini, t, ss, acts) && |ss| > 0 && ss[|ss| - 1] == s
    ensures Path(withFini, t, ss', acts') && |ss'| > 0 && ss'[0] == ss[0] && acts <= acts' && ss'[|ss'| - 1] == n
    ensures Calling(s, n, t, base + [Init(q, i + 1, Test)])
    ensures Shares(n, s.visitor[q[i] := 0], s.constructed + {q[i]},
                   if q[i] in withFini then [q[i]] + s.fini else s.fini, s.starts, t)
  {
    hide Next, Enabled, Path;
    var a := LinkStep(withFini, s, t, base, q, i);
    ss', acts' := Longer(withFini, t, ss, acts, Go);
    var b := BodyStep(withFini, a, t, base, q, i);
    ss', acts' := Longer(withFini, t, ss', acts', Go);
    var c := RelockStep(withFini, b, t, base, q, i);
    ss', acts' := Longer(withFini, t, ss', acts', Go);
    n := FinishStep(withFini, c, t, base, q, i);
    ss', acts' := Longer(withFini, t, ss', acts', Go);
  }

  lemma DoneMore(withFini: set<nat>, s0: State, s: State, r: State, x: seq<nat>, p: nat)
    requires Done(withFini, s0, s, x) && s0.Visitor(p) == 0
    requires forall d :: r.Visitor(d) == if d == p then 0 else s.Visitor(d)
    requires r.starts == s.starts + [p] && r.constructed == s.constructed + {p}
    requires r.fini == if p in withFini then [p] + s.fini else s.fini
    ensures Done(withFini, s0, r, x + [p])
  {
    ReversedMore(withFini, x, p);
    var y := Reversed(withFini, x);
    hide Reversed;
    assert s0.starts + x + [p] == s0.starts + (x + [p]);
    if p in withFini {
      assert [p] + (y + s0.fini) == [p] + y + s0.fini;
    } else {
      assert [] + y == y;
    }
  }

  lemma StartState(withFini: set<nat>, s0: State, s: State, t: nat, q: seq<nat>, i: nat) returns (a: State, b: State)
    requires Free(s0, t, q) && i < |q| && At(withFini, s0, s, t, q, i)
    requires q[i] !in q[..i] && q[i] !in s0.constructed && s0.Visitor(q[i]) == 0
    ensures Enabled(s, t, Go) && a == Next(withFini, s, t, Go) && Enabled(a, t, Go) && b == Next(withFini, a, t, Go)
    ensures Calling(s0, b, t, s0.Calls(t) + [Init(q, i, Link)])
    ensures Shares(b, s.visitor[q[i] := t], s.constructed, s.fini, s.starts + [q[i]], s.holder)
  {
    FreshIs(s0, q, i);
    hide Fresh, Next, Enabled, Reversed;
    a := TestStep(withFini, s, t, s0.Calls(t), q, i);
    b := DecideStart(withFini, a, t, s0.Calls(t), q, i);
  }

  lemma BuiltAt(withFini: set<nat>, s0: State, s: State, b: State, n: State, t: nat, q: seq<nat>, i: nat)
    requires Free(s0, t, q) && i < |q| && At(withFini, s0, s, t, q, i)
    requires q[i] !in q[..i] && q[i] !in s0.constructed && s0.Visitor(q[i]) == 0
    requires Calling(s0, b, t, s0.Calls(t) + [Init(q, i, Link)])
    requires Shares(b, s.visitor[q[i] := t], s.constructed, s.fini, s.starts + [q[i]], s.holder)
    requires Calling(b, n, t, s0.Calls(t) + [Init(q, i + 1, Test)])
    requires Shares(n, b.visitor[q[i] := 0], b.constructed + {q[i]},
                    if q[i] in withFini then [q[i]] + b.fini else b.fini, b.starts, t)
    ensures At(withFini, s0, n, t, q, i + 1)
  {
    var x, p := Fresh(s0, q, i), q[i];
    assert Fresh(s0, q, i + 1) == x + [p];
    hide Fresh, Reversed, Free;
    DoneMore(withFini, s0, s, n, x, p);
  }

  lemma Builds(withFini: set<nat>, s0: State, t: nat, q: seq<nat>, i: nat, ss: seq<State>, acts: seq<(nat, Action)>)
    returns (ss': seq<State>, acts': seq<(nat, Action)>)
    requires Free(s0, t, q) && i < |q| && Path(withFini, t, ss, acts) && |ss| > 0
    requires At(withFini, s0, ss[|ss| - 1], t, q, i)
    requires q[i] !in q[..i] && q[i] !in s0.constructed && s0.Visitor(q[i]) == 0
    ensures Path(withFini, t, ss', acts') && |ss'| > 0 && ss'[0] == ss[0] && acts <= acts'
    ensures At(withFini, s0, ss'[|ss'| - 1], t, q, i + 1)
  {
    assert t > 0;
    hide At, Free, Next, Enabled, Path, Shares;
    var s := ss[|ss| - 1];
    var a, b := StartState(withFini, s0, s, t, q, i);
    ss', acts' := Longer(withFini, t, ss, acts, Go);
    ss', acts' := Longer(withFini, t, ss', acts', Go);
    var n;
    ss', acts', n := BuildSteps(withFini, b, t, s0.Calls(t), q, i, ss', acts');
    BuiltAt(withFini, s0, s, b, n, t, q, i);
  }

  lemma Turn(withFini: set<nat>, s0: State, t: nat, q: seq<nat>, i: nat, ss: seq<State>, acts: seq<(nat, Action)>)
    returns (ss': seq<State>, acts': seq<(nat, Action)>)
    requires Free(s0, t, q) && i < |q| && Path(withFini, t, ss, acts)
    requires |ss| > 0 && At(withFini, s0, ss[|ss| - 1], t, q, i)
    ensures Path(withFini, t, ss', acts') && |ss'| > 0 && ss'[0] == ss[0] && acts <= acts'
    ensures At(withFini, s0, ss'[|ss'| - 1], t, q, i + 1)
  {
    hide At;
    if q[i] in q[..i] || q[i] in s0.constructed || s0.Visitor(q[i]) != 0 {
      ss', acts' := Skips(withFini, s0, t, q, i, ss, acts);
    } else {
      ss', acts' := Builds(withFini, s0, t, q, i, ss, acts);
    }
  }

  /** What a call for q comes to: all of q is constructed, but for what the thread itself is constructing
      further out, the new objects have been started in the order of q without repeats, and nothing else has
      changed. */
  ghost predicate Completed(withFini: set<nat>, s0: State, s: State, q: seq<nat>) {
    && s.holder == 0 && s.down == s0.down && s.exiter == s0.exiter && s.finis == s0.finis
    && (forall u: nat :: s.Calls(u) == s0.Calls(u)) && (forall d :: s.Visitor(d) == s0.Visitor(d))
    && s.starts == s0.starts + Fresh(s0, q, |q|)
    && (forall d :: d in s.constructed <==> d in s0.constructed || (d in q && s0.Visitor(d) == 0))
    && s.fini == Reversed(withFini, Fresh(s0, q, |q|)) + s0.fini
  }

  lemma CallStep(withFini: set<nat>, s: State, t: nat, q: seq<nat>) returns (n: State)
    requires t > 0 && (s.Calls(t) == [] || Top(s, t).pc == Body)
    ensures Enabled(s, t, Call(q)) && n == Next(withFini, s, t, Call(q))
    ensures Calling(s, n, t, s.Calls(t) + [Init(q, 0, Enter)])
    ensures Shares(n, s.visitor, s.constructed, s.fini, s.starts, s.holder)
  {
    n := Next(withFini, s, t, Call(q));
  }

  lemma EnterStep(withFini: set<nat>, s: State, t: nat, base: seq<Frame>, q: seq<nat>) returns (n: State)
    requires t > 0 && s.Calls(t) == base + [Init(q, 0, Enter)] && s.holder == 0
    ensures Enabled(s, t, Go) && n == Next(withFini, s, t, Go) && Calling(s, n, t, base + [Init(q, 0, Test)])
    ensures Shares(n, s.visitor, s.constructed, s.fini, s.starts, t)
  {
    Retopped(s, t, base, Init(q, 0, Enter), Init(q, 0, Test));
    Retopped(s.(holder := t), t, base, Init(q, 0, Enter), Init(q, 0, Test));
    n := Next(withFini, s, t, Go);
  }

  lemma ReturnStep(withFini: set<nat>, s: State, t: nat, base: seq<Frame>, q: seq<nat>) returns (n: State)
    requires t > 0 && s.Calls(t) == base + [Init(q, |q|, Test)]
    ensures Enabled(s, t, Go) && n == Next(withFini, s, t, Go) && Calling(s, n, t, base)
    ensures Shares(n, s.visitor, s.constructed, s.fini, s.starts, 0)
  {
    assert s.Calls(t)[..|s.Calls(t)| - 1] == base;
    n := Next(withFini, s, t, Go);
  }

  lemma BeginState(withFini: set<nat>, s0: State, t: nat, q: seq<nat>) returns (s: State, r: State)
    requires Free(s0, t, q)
    ensures Enabled(s0, t, Call(q)) && s == Next(withFini, s0, t, Call(q))
    ensures Enabled(s, t, Go) && r == Next(withFini, s, t, Go) && At(withFini, s0, r, t, q, 0)
  {
    s := CallStep(withFini, s0, t, q);
    assert s.holder == 0;
    hide Next, Enabled;
    r := EnterStep(withFini, s, t, s0.Calls(t), q);
    assert [] + s0.fini == s0.fini && s0.starts + [] == s0.starts;
    assert Done(withFini, s0, r, []);
  }

  lemma Begins(withFini: set<nat>, s0: State, t: nat, q: seq<nat>)
    returns (ss: seq<State>, acts: seq<(nat, Action)>)
    requires Free(s0, t, q)
    ensures Path(withFini, t, ss, acts) && |ss| > 0 && ss[0] == s0 && |acts| > 0 && acts[0] == (t, Call(q))
    ensures At(withFini, s0, ss[|ss| - 1], t, q, 0)
  {
    ss, acts := [s0], [];
    assert Path(withFini, t, ss, acts);
    hide At, Free, Next, Enabled, Path;
    var s, r := BeginState(withFini, s0, t, q);
    ss, acts := Longer(withFini, t, ss, acts, Call(q));
    ss, acts := Longer(withFini, t, ss, acts, Go);
  }

  lemma ReturnState(withFini: set<nat>, s0: State, s: State, t: nat, q: seq<nat>) returns (r: State)
    requires Free(s0, t, q) && At(withFini, s0, s, t, q, |q|)
    ensures Enabled(s, t, Go) && r == Next(withFini, s, t, Go) && Completed(withFini, s0, r, q)
  {
    FreshIs(s0, q, |q|);
    assert q[..|q|] == q;
    hide Fresh, Reversed, Next, Enabled;
    r := ReturnStep(withFini, s, t, s0.Calls(t), q);
  }

  lemma Returns(withFini: set<nat>, s0: State, t: nat, q: seq<nat>, ss: seq<State>, acts: seq<(nat, Action)>)
    returns (ss': seq<State>, acts': seq<(nat, Action)>)
    requires Free(s0, t, q) && Path(withFini, t, ss, acts) && |ss| > 0 && At(withFini, s0, ss[|ss| - 1], t, q, |q|)
    ensures Path(withFini, t, ss', acts') && |ss'| > 0 && ss'[0] == ss[0] && acts <= acts'
    ensures Completed(withFini, s0, ss'[|ss'| - 1], q)
  {
    hide At, Free, Next, Enabled, Path, Completed;
    var r := ReturnState(withFini, s0, ss[|ss| - 1], t, q);
    ss', acts' := Longer(withFini, t, ss, acts, Go);
  }

  /** From every state in which nothing keeps t waiting, t alone gets through a call for q. */
  lemma CallCompletes(withFini: set<nat>, s0: State, t: nat, q: seq<nat>)
    returns (ss: seq<State>, acts: seq<(nat, Action)>)
    requires Free(s0, t, q)
    ensures Path(withFini, t, ss, acts) && ss[0] == s0 && |acts| > 0 && acts[0] == (t, Call(q))
    ensures Completed(withFini, s0, ss[|ss| - 1], q)
  {
    ss, acts := Begins(withFini, s0, t, q);
    assert |ss| > 0;
    hide At, Path, Free, Completed;
    var i := 0;
    while i < |q|
      invariant i <= |q| && Path(withFini, t, ss, acts) && |ss| > 0 && ss[0] == s0
      invariant |acts| > 0 && acts[0] == (t, Call(q)) && At(withFini, s0, ss[|ss| - 1], t, q, i)
    {
      ss, acts := Turn(withFini, s0, t, q, i, ss, acts);
      i := i + 1;
    }
    ss, acts := Returns(withFini, s0, t, q, ss, acts);
  }

  /** So for every queue there is a run in which the first call constructs it, in order, without repeats. */
  lemma QueueRuns(withFini: set<nat>, q: seq<nat>) returns (ss: seq<State>, acts: seq<(nat, Action)>)
    ensures Run(withFini, ss, acts) && |acts| > 0 && acts[0] == (1, Call(q))
    ensures var s := ss[|ss| - 1];
            && s.Calls(1) == [] && s.starts == Fresh(START, q, |q|) && NoDup(s.starts)
            && (forall d :: d in s.starts <==> d in q) && (forall d :: d in s.constructed <==> d in q)
  {
    FreshIs(START, q, |q|);
    assert q[..|q|] == q;
    ss, acts := CallCompletes(withFini, START, 1, q);
    assert [] + Fresh(START, q, |q|) == Fresh(START, q, |q|);
  }

  // ---------------------------------------------------------------------------------
  // The exit call

  /** Since state s0, thread t has announced the shutdown and gone through the first k of the list. */
  ghost predicate ExitAt(s0: State, s: State, t: nat, k: nat) {
    && k <= |s0.fini| && s.Calls(t) == s0.Calls(t) + [Exit(k, Test)] && s.holder == t && s.down
    && s.exiter == t && s.finis == s0.finis + Only(s0.fini[..k], s0.constructed)
    && s.fini == s0.fini && s.constructed == s0.constructed && s.visitor == s0.visitor && s.starts == s0.starts
  }

  ghost predicate ExitFree(s: State, t: nat) {
    && t > 0 && s.holder == 0 && s.exiter == 0 && (s.Calls(t) == [] || Top(s, t).pc == Body)
    && forall d | d in s.fini :: s.Visitor(d) == 0 || s.Visitor(d) == t
  }

  lemma OnlyMore(s: seq<nat>, k: nat, keep: set<nat>)
    requires k < |s|
    ensures Only(s[..k + 1], keep) == Only(s[..k], keep) + if s[k] in keep then [s[k]] else []
  {
    assert s[..k + 1][..k] == s[..k];
  }

  lemma ExitStep(withFini: set<nat>, s0: State, s: State, t: nat, k: nat) returns (n: State)
    requires ExitFree(s0, t) && k < |s0.fini| && ExitAt(s0, s, t, k)
    ensures Enabled(s, t, Go) && n == Next(withFini, s, t, Go) && ExitAt(s0, n, t, k + 1)
  {
    var base, p := s0.Calls(t), s0.fini[k];
    OnlyMore(s0.fini, k, s0.constructed);
    assert p in s0.fini && s.Visitor(p) == s0.Visitor(p);
    Retopped(s, t, base, Exit(k, Test), Exit(k + 1, Test));
    Retopped(s.(finis := s.finis + [p]), t, base, Exit(k, Test), Exit(k + 1, Test));
    hide Only;
    n := Next(withFini, s, t, Go);
    var x := Only(s0.fini[..k], s0.constructed);
    assert s0.finis + x + [p] == s0.finis + (x + [p]) && x + [] == x;
  }

  lemma ExitTurn(withFini: set<nat>, s0: State, t: nat, k: nat, ss: seq<State>, acts: seq<(nat, Action)>)
    returns (ss': seq<State>, acts': seq<(nat, Action)>)
    requires ExitFree(s0, t) && k < |s0.fini| && Path(withFini, t, ss, acts) && |ss| > 0
    requires ExitAt(s0, ss[|ss| - 1], t, k)
    ensures Path(withFini, t, ss', acts') && |ss'| > 0 && ss'[0] == ss[0] && acts <= acts'
    ensures ExitAt(s0, ss'[|ss'| - 1], t, k + 1)
  {
    hide Path, ExitAt, ExitFree, Next, Enabled;
    var n := ExitStep(withFini, s0, ss[|ss| - 1], t, k);
    ss', acts' := Longer(withFini, t, ss, acts, Go);
  }

  lemma ExitBegins(withFini: set<nat>, s0: State, t: nat) returns (ss: seq<State>, acts: seq<(nat, Action)>)
    requires ExitFree(s0, t)
    ensures Path(withFini, t, ss, acts) && ss[0] == s0 && |acts| > 0 && acts[0] == (t, CallExit)
    ensures ExitAt(s0, ss[|ss| - 1], t, 0)
  {
    var base := s0.Calls(t);
    ss, acts := [s0], [];
    ss, acts := Longer(withFini, t, ss, acts, CallExit);
    var s := ss[|ss| - 1];
    assert s.Calls(t) == base + [Exit(0, Enter)];
    Retopped(s, t, base, Exit(0, Enter), Exit(0, Test));
    Retopped(s.(holder := t, down := true), t, base, Exit(0, Enter), Exit(0, Test));
    assert s0.finis + [] == s0.finis && s0.fini[..0] == [];
    hide Path;
    ss, acts := Longer(withFini, t, ss, acts, Go);
  }

  /** From every state in which no other thread constructs a listed object, the exit call alone runs the
      finalizers of all constructed ones, in the order of the list, and ends. */
  lemma ExitCompletes(withFini: set<nat>, s0: State, t: nat) returns (ss: seq<State>, acts: seq<(nat, Action)>)
    requires ExitFree(s0, t)
    ensures Path(withFini, t, ss, acts) && ss[0] == s0 && |acts| > 0 && acts[0] == (t, CallExit)
    ensures var s := ss[|ss| - 1];
            && s.Calls(t) == s0.Calls(t) + [Exit(|s0.fini|, Over)] && s.down
            && s.finis == s0.finis + Only(s0.fini, s0.constructed)
  {
    ss, acts := ExitBegins(withFini, s0, t);
    assert |ss| > 0;
    var k := 0;
    while k < |s0.fini|
      invariant k <= |s0.fini| && Path(withFini, t, ss, acts) && |ss| > 0 && ss[0] == s0
      invariant |acts| > 0 && acts[0] == (t, CallExit) && ExitAt(s0, ss[|ss| - 1], t, k)
    {
      hide ExitAt, Path, ExitFree;
      ss, acts := ExitTurn(withFini, s0, t, k, ss, acts);
      k := k + 1;
    }
    ss, acts := ExitEnds(withFini, s0, t, ss, acts);
  }

  lemma ExitEnds(withFini: set<nat>, s0: State, t: nat, ss: seq<State>, acts: seq<(nat, Action)>)
    returns (ss': seq<State>, acts': seq<(nat, Action)>)
    requires t > 0 && Path(withFini, t, ss, acts) && |ss| > 0 && ExitAt(s0, ss[|ss| - 1], t, |s0.fini|)
    ensures Path(withFini, t, ss', acts') && |ss'| > 0 && ss'[0] == ss[0] && acts <= acts'
    ensures var s := ss'[|ss'| - 1];
            && s.Calls(t) == s0.Calls(t) + [Exit(|s0.fini|, Over)] && s.down
            && s.finis == s0.finis + Only(s0.fini, s0.constructed)
  {
    var s := ss[|ss| - 1];
    assert s0.fini[..|s0.fini|] == s0.fini;
    Retopped(s, t, s0.Calls(t), Exit(|s0.fini|, Test), Exit(|s0.fini|, Over));
    hide Path;
    ss', acts' := Longer(withFini, t, ss, acts, Go);
  }
}
