/** Constructors and finalizers of shared objects under any interleaving of threads.  A thread
    is a stack of calls, since a constructor may load further objects or exit. */
module InitFini {
  import opened Basics

  /** Where a call of do_init_fini (Init) or __libc_exit_fini (Exit) stands.  Enter, Wait and
      Relock are about to take init_fini_lock; Test, Decide, Link, Finish and Over hold it;
      Body runs a constructor. */
  datatype Pc = Enter | Wait | Test | Decide | Link | Body | Relock | Finish | Over

  datatype Frame = Init(queue: seq<nat>, i: nat, pc: Pc) | Exit(k: nat, pc: Pc) {
    predicate Holds() {
      pc == Test || pc == Decide || pc == Link || pc == Finish || pc == Over
    }

    predicate Takes() {
      pc == Enter || pc == Wait || pc == Relock
    }

    /** The object whose constructor this call has begun and not yet reported as ended. */
    predicate Runs(d: nat) {
      Init? && i < |queue| && queue[i] == d && (pc == Link || pc == Body || pc == Relock)
    }

    predicate Finishes(d: nat) {
      Init? && i < |queue| && queue[i] == d && pc == Finish
    }
  }

  /** The shared state, the calls of each thread, and the history of constructor starts and
      finalizer runs.  Threads have numbers from 1 on; 0 is no thread. */
  datatype State = State(
    visitor: map<nat, nat>, constructed: set<nat>, fini: seq<nat>, down: bool, holder: nat,
    calls: map<nat, seq<Frame>>, exiter: nat, starts: seq<nat>, finis: seq<nat>)
  {
    function Visitor(d: nat): (t: nat) {
      if d in visitor then visitor[d] else 0
    }

    function Calls(t: nat): (fs: seq<Frame>) {
      if t in calls then calls[t] else []
    }

    function WithTop(t: nat, f: Frame): (s: State)
      requires Calls(t) != []
    {
      this.(calls := calls[t := Calls(t)[..|Calls(t)| - 1] + [f]])
    }
  }

  function Top(s: State, t: nat): (f: Frame)
    requires s.Calls(t) != []
  {
    s.Calls(t)[|s.Calls(t)| - 1]
  }

  datatype Action = Call(queue: seq<nat>) | CallExit | Go

  /** May thread t do this?  Calls come from code outside or from a running constructor; exit is
      called once. */
  predicate Enabled(s: State, t: nat, a: Action) {
    t > 0 &&
    match a
    case Call(_) => s.Calls(t) == [] || Top(s, t).pc == Body
    case CallExit => (s.Calls(t) == [] || Top(s, t).pc == Body) && s.exiter == 0
    case Go => s.Calls(t) != [] && (Top(s, t).Takes() ==> s.holder == 0) && Top(s, t).pc != Over
  }

  /** The next step of a call of do_init_fini; withFini are the objects that have finalizers. */
  function StepInit(withFini: set<nat>, s: State, t: nat, f: Frame): (s': State)
    requires s.Calls(t) != [] && f.Init?
  {
    var p := if f.i < |f.queue| then f.queue[f.i] else 0;
    match f.pc
    case Enter => s.(holder := t).WithTop(t, Init(f.queue, f.i, Test))
    case Wait => s.(holder := t).WithTop(t, Init(f.queue, f.i, Test))
    case Test =>
      if f.i >= |f.queue| then s.(holder := 0, calls := s.calls[t := s.Calls(t)[..|s.Calls(t)| - 1]])
      else if (s.Visitor(p) != 0 && s.Visitor(p) != t) || s.down then
        s.(holder := 0).WithTop(t, Init(f.queue, f.i, Wait))
      else s.WithTop(t, Init(f.queue, f.i, Decide))
    case Decide =>
      if s.Visitor(p) != 0 || p in s.constructed then s.WithTop(t, Init(f.queue, f.i + 1, Test))
      else s.(visitor := s.visitor[p := t], starts := s.starts + [p]).WithTop(t, Init(f.queue, f.i, Link))
    case Link =>
      s.(fini := if p in withFini then [p] + s.fini else s.fini, holder := 0).WithTop(t, Init(f.queue, f.i, Body))
    case Body => s.WithTop(t, Init(f.queue, f.i, Relock))
    case Relock => s.(holder := t, visitor := s.visitor[p := 0]).WithTop(t, Init(f.queue, f.i, Finish))
    case Finish => s.(constructed := s.constructed + {p}).WithTop(t, Init(f.queue, f.i + 1, Test))
    case Over => s
  }

  /** The next step of a call of __libc_exit_fini, which keeps the lock when it is over. */
  function StepExit(s: State, t: nat, f: Frame): (s': State)
    requires s.Calls(t) != [] && f.Exit?
  {
    if f.pc == Enter then s.(holder := t, down := true).WithTop(t, Exit(f.k, Test))
    else if f.pc == Wait then s.(holder := t).WithTop(t, Exit(f.k, Test))
    else if f.pc != Test then s
    else if f.k >= |s.fini| then s.WithTop(t, Exit(f.k, Over))
    else
      var p := s.fini[f.k];
      if s.Visitor(p) != 0 && s.Visitor(p) != t then s.(holder := 0).WithTop(t, Exit(f.k, Wait))
      else if p !in s.constructed then s.WithTop(t, Exit(f.k + 1, Test))
      else s.(finis := s.finis + [p]).WithTop(t, Exit(f.k + 1, Test))
  }

  function Next(withFini: set<nat>, s: State, t: nat, a: Action): (s': State)
    requires Enabled(s, t, a)
  {
    match a
    case Call(q) => s.(calls := s.calls[t := s.Calls(t) + [Init(q, 0, Enter)]])
    case CallExit => s.(calls := s.calls[t := s.Calls(t) + [Exit(0, Enter)]], exiter := t)
    case Go => if Top(s, t).Init? then StepInit(withFini, s, t, Top(s, t)) else StepExit(s, t, Top(s, t))
  }

  const START := State(map[], {}, [], false, 0, map[], 0, [], [])

  /** ss are the states of a run; entry i of acts says which thread did what. */
  ghost predicate Run(withFini: set<nat>, ss: seq<State>, acts: seq<(nat, Action)>) {
    && |ss| == |acts| + 1 && ss[0] == START
    && forall i | 0 <= i < |acts| ::
         Enabled(ss[i], acts[i].0, acts[i].1) && ss[i + 1] == Next(withFini, ss[i], acts[i].0, acts[i].1)
  }

  /** The objects with finalizers among those started, latest first. */
  function Reversed(withFini: set<nat>, starts: seq<nat>): (r: seq<nat>) {
    if |starts| == 0 then []
    else
      var last, rest := starts[|starts| - 1], Reversed(withFini, starts[..|starts| - 1]);
      if last in withFini then [last] + rest else rest
  }

  function Only(s: seq<nat>, keep: set<nat>): (r: seq<nat>) {
    if |s| == 0 then []
    else
      var last, rest := s[|s| - 1], Only(s[..|s| - 1], keep);
      if last in keep then rest + [last] else rest
  }

  // ---------------------------------------------------------------------------------
  // What every step keeps

  /** The calls fs of thread t: those under the top one wait in constructors, each visitor mark
      of t belongs to one call, and what a loop has passed is constructed or runs further down. */
  ghost predicate Shape(fs: seq<Frame>) {
    && (forall a | 0 <= a < |fs| - 1 :: fs[a].Init? && fs[a].pc == Body)
    && (forall a | 0 <= a < |fs| && fs[a].Init? :: fs[a].i <= |fs[a].queue| && fs[a].pc != Over)
    && (forall a | 0 <= a < |fs| && fs[a].Init? && (fs[a].pc == Decide || fs[a].pc == Link || fs[a].pc == Body ||
          fs[a].pc == Relock || fs[a].pc == Finish) :: fs[a].i < |fs[a].queue|)
    && (forall a | 0 <= a < |fs| && fs[a].Exit? ::
          fs[a].pc == Enter || fs[a].pc == Wait || fs[a].pc == Test || fs[a].pc == Over)
  }

  ghost predicate RunsBelow(fs: seq<Frame>, a: nat, d: nat) {
    exists b :: 0 <= b < a && b < |fs| && fs[b].Runs(d)
  }

  ghost predicate Marks(s: State, t: nat, fs: seq<Frame>) {
    && (forall a, d | 0 <= a < |fs| && fs[a].Runs(d) :: s.Visitor(d) == t)
    && (forall a, b, d | 0 <= a < b < |fs| && fs[a].Runs(d) :: !fs[b].Runs(d))
    && (forall d | s.Visitor(d) == t :: RunsBelow(fs, |fs|, d))
  }

  ghost predicate Passed(s: State, fs: seq<Frame>) {
    forall a, j | 0 <= a < |fs| && fs[a].Init? && 0 <= j < fs[a].i && j < |fs[a].queue| ::
      fs[a].queue[j] in s.constructed || RunsBelow(fs, a, fs[a].queue[j])
  }

  /** What the top call knows because it holds the lock. */
  ghost predicate Locked(s: State, t: nat, f: Frame) {
    && (f.Holds() ==> s.holder == t)
    && (f.Init? && f.pc == Decide && f.i < |f.queue| ==>
          !s.down && (s.Visitor(f.queue[f.i]) == 0 || s.Visitor(f.queue[f.i]) == t))
    && (f.Init? && f.pc == Link && f.i < |f.queue| ==>
          !s.down && s.starts != [] && s.starts[|s.starts| - 1] == f.queue[f.i])
    && (f.Init? && f.pc == Finish && f.i < |f.queue| ==>
          s.Visitor(f.queue[f.i]) == 0 && f.queue[f.i] !in s.constructed && f.queue[f.i] in s.starts)
    && (f.Exit? ==> s.exiter == t && f.k <= |s.fini| && (s.down <==> f.pc != Enter))
    && (f.Exit? && f.pc == Over ==> f.k == |s.fini|)
  }

  ghost predicate ThreadOk(s: State, t: nat) {
    var fs := s.Calls(t);
    Shape(fs) && Marks(s, t, fs) && Passed(s, fs) && (fs != [] ==> Locked(s, t, fs[|fs| - 1]))
  }

  ghost predicate Busy(s: State, t: nat, pc: Pc) {
    t != 0 && s.Calls(t) != [] && Top(s, t).Init? && Top(s, t).pc == pc
  }

  ghost predicate BeingFinished(s: State, d: nat) {
    Busy(s, s.holder, Finish) && Top(s, s.holder).Finishes(d)
  }

  /** A constructor that started is running, ended, or about to be recorded as ended. */
  ghost predicate Started(s: State) {
    && NoDup(s.starts)
    && (forall d | s.Visitor(d) != 0 :: d in s.starts && d !in s.constructed)
    && (forall d | d in s.constructed :: d in s.starts)
    && (forall d | d in s.starts :: s.Visitor(d) != 0 || d in s.constructed || BeingFinished(s, d))
  }

  /** The finalizer list is the reverse of the starts, but for an object just being linked. */
  ghost predicate Listed(withFini: set<nat>, s: State) {
    s.fini == Reversed(withFini,
      if Busy(s, s.holder, Link) && s.starts != [] then s.starts[..|s.starts| - 1] else s.starts)
  }

  /** The exit call has run the finalizers of the constructed objects it has passed, in order;
      what it skipped it is itself constructing. */
  ghost predicate Finalized(s: State) {
    if s.exiter == 0 then !s.down && s.finis == []
    else
      && s.Calls(s.exiter) != [] && Top(s, s.exiter).Exit?
      && var k := Top(s, s.exiter).k;
         && k <= |s.fini| && (Top(s, s.exiter).pc == Enter ==> k == 0)
         && s.finis == Only(s.fini[..k], s.constructed)
         && forall i | 0 <= i < k :: s.fini[i] in s.constructed || s.Visitor(s.fini[i]) == s.exiter
  }

  ghost predicate Inv(withFini: set<nat>, s: State) {
    && (forall t: nat | t > 0 :: ThreadOk(s, t))
    && (s.holder != 0 ==> s.Calls(s.holder) != [] && Top(s, s.holder).Holds())
    && Started(s) && Listed(withFini, s) && Finalized(s)
  }

  // ---------------------------------------------------------------------------------
  // What a step of t means for the other threads

  /** Without the lock t changes its own calls only. */
  ghost predicate SharedSame(s: State, s': State) {
    && s'.visitor == s.visitor && s'.constructed == s.constructed && s'.fini == s.fini && s'.down == s.down
    && s'.holder == s.holder && s'.starts == s.starts && s'.finis == s.finis
  }

  ghost predicate Polite(s: State, s': State, t: nat) {
    && (forall u: nat | u != t :: s'.Calls(u) == s.Calls(u))
    && (SharedSame(s, s') || s.holder == 0 || s.holder == t)
    && (forall d :: s'.Visitor(d) == s.Visitor(d) || ((s.Visitor(d) == 0 || s.Visitor(d) == t) &&
                                                      (s'.Visitor(d) == 0 || s'.Visitor(d) == t)))
    && s.constructed <= s'.constructed && |s.fini| <= |s'.fini|
    && (s.exiter != 0 ==> s'.exiter == s.exiter) && (s.exiter != 0 && s.exiter != t ==> s'.down == s.down)
  }

  lemma OthersOk(s: State, s': State, t: nat, u: nat)
    requires t > 0 && u > 0 && u != t && ThreadOk(s, u) && Polite(s, s', t)
    ensures ThreadOk(s', u)
  {
    hide RunsBelow, Shape;
    var fs := s.Calls(u);
    assert s'.Calls(u) == fs;
    assert forall d :: s'.Visitor(d) == u <==> s.Visitor(d) == u;
    assert Marks(s', u, fs);
    assert Passed(s', fs);
  }

  // ---------------------------------------------------------------------------------
  // What a step of t means for its own calls

  function Retop(fs: seq<Frame>, f: Frame): (r: seq<Frame>)
    requires fs != []
  {
    fs[..|fs| - 1] + [f]
  }

  ghost predicate RunsNone(f: Frame) {
    forall d :: !f.Runs(d)
  }

  ghost predicate RunsOnly(f: Frame, p: nat) {
    forall d :: f.Runs(d) <==> d == p
  }

  lemma SameRuns(fs: seq<Frame>, gs: seq<Frame>, a: nat, d: nat)
    requires a <= |fs| && a <= |gs| && forall b | 0 <= b < a :: fs[b].Runs(d) == gs[b].Runs(d)
    ensures RunsBelow(fs, a, d) <==> RunsBelow(gs, a, d)
  {
  }

  /** The top call moves on without starting or ending a constructor. */
  lemma MoveTop(s: State, s': State, t: nat, fs: seq<Frame>, f: Frame)
    requires fs != [] && Marks(s, t, fs) && Passed(s, fs)
    requires forall d :: f.Runs(d) == fs[|fs| - 1].Runs(d)
    requires (forall d :: s'.Visitor(d) == s.Visitor(d)) && s.constructed <= s'.constructed
    requires f.Init? ==>
               && fs[|fs| - 1].Init? && f.queue == fs[|fs| - 1].queue && fs[|fs| - 1].i <= f.i <= fs[|fs| - 1].i + 1
               && (f.i > fs[|fs| - 1].i ==>
                     && f.i <= |f.queue|
                     && (f.queue[f.i - 1] in s'.constructed || RunsBelow(fs, |fs| - 1, f.queue[f.i - 1])))
    ensures Marks(s', t, Retop(fs, f)) && Passed(s', Retop(fs, f))
  {
    hide RunsBelow;
    var gs := Retop(fs, f);
    assert forall a, d | 0 <= a < |fs| :: gs[a].Runs(d) == fs[a].Runs(d);
    forall a: nat, d: nat | a <= |fs| ensures RunsBelow(gs, a, d) <==> RunsBelow(fs, a, d) {
      SameRuns(fs, gs, a, d);
    }
    forall a, j | 0 <= a < |gs| && gs[a].Init? && 0 <= j < gs[a].i && j < |gs[a].queue|
      ensures gs[a].queue[j] in s'.constructed || RunsBelow(gs, a, gs[a].queue[j])
    {
      assert RunsBelow(gs, a, gs[a].queue[j]) <==> RunsBelow(fs, a, gs[a].queue[j]);
    }
  }

  /** The top call begins the constructor of p. */
  lemma ClaimTop(s: State, s': State, t: nat, fs: seq<Frame>, f: Frame, p: nat)
    requires t != 0 && fs != [] && Marks(s, t, fs) && Passed(s, fs)
    requires RunsOnly(f, p) && RunsNone(fs[|fs| - 1]) && s.Visitor(p) == 0
    requires (forall d :: s'.Visitor(d) == if d == p then t else s.Visitor(d)) && s.constructed == s'.constructed
    requires f.Init? && fs[|fs| - 1].Init? && f.queue == fs[|fs| - 1].queue && f.i == fs[|fs| - 1].i
    ensures Marks(s', t, Retop(fs, f)) && Passed(s', Retop(fs, f))
  {
    hide RunsBelow;
    var gs := Retop(fs, f);
    forall a, d | 0 <= a < |gs| && gs[a].Runs(d) ensures s'.Visitor(d) == t {
      assert a < |fs| - 1 ==> fs[a].Runs(d);
    }
    forall a, b, d | 0 <= a < b < |gs| && gs[a].Runs(d) ensures !gs[b].Runs(d) {
      assert fs[a].Runs(d);
    }
    forall d | s'.Visitor(d) == t ensures RunsBelow(gs, |gs|, d) {
      ClaimedRuns(fs, gs, d, p);
    }
    forall a, j | 0 <= a < |gs| && gs[a].Init? && 0 <= j < gs[a].i && j < |gs[a].queue|
      ensures gs[a].queue[j] in s'.constructed || RunsBelow(gs, a, gs[a].queue[j])
    {
      SameRuns(fs, gs, a, gs[a].queue[j]);
    }
  }

  lemma ClaimedRuns(fs: seq<Frame>, gs: seq<Frame>, d: nat, p: nat)
    requires |fs| == |gs| > 0 && gs[..|fs| - 1] == fs[..|fs| - 1] && gs[|fs| - 1].Runs(p)
    requires d == p || RunsBelow(fs, |fs|, d)
    requires !fs[|fs| - 1].Runs(d)
    ensures RunsBelow(gs, |gs|, d)
  {
    if d != p {
      var b :| 0 <= b < |fs| && fs[b].Runs(d);
      assert gs[b] == gs[..|fs| - 1][b];
    }
  }

  /** The top call no longer marks p, whose constructor has ended. */
  lemma ReleaseTop(s: State, s': State, t: nat, fs: seq<Frame>, f: Frame, p: nat)
    requires t != 0 && fs != [] && Marks(s, t, fs) && Passed(s, fs)
    requires RunsOnly(fs[|fs| - 1], p) && RunsNone(f)
    requires (forall d :: s'.Visitor(d) == if d == p then 0 else s.Visitor(d)) && s.constructed == s'.constructed
    requires f.Init? && fs[|fs| - 1].Init? && f.queue == fs[|fs| - 1].queue && f.i == fs[|fs| - 1].i
    ensures Marks(s', t, Retop(fs, f)) && Passed(s', Retop(fs, f))
  {
    hide RunsBelow;
    var gs := Retop(fs, f);
    assert fs[|fs| - 1].Runs(p);
    forall a, d | 0 <= a < |gs| && gs[a].Runs(d) ensures s'.Visitor(d) == t {
      assert a < |fs| - 1 && fs[a].Runs(d);
    }
    forall a, b, d | 0 <= a < b < |gs| && gs[a].Runs(d) ensures !gs[b].Runs(d) {
      assert fs[a].Runs(d);
    }
    forall d | s'.Visitor(d) == t ensures RunsBelow(gs, |gs|, d) {
      ReleasedRuns(fs, gs, d, p);
    }
    forall a, j | 0 <= a < |gs| && gs[a].Init? && 0 <= j < gs[a].i && j < |gs[a].queue|
      ensures gs[a].queue[j] in s'.constructed || RunsBelow(gs, a, gs[a].queue[j])
    {
      SameRuns(fs, gs, a, gs[a].queue[j]);
    }
  }

  lemma ReleasedRuns(fs: seq<Frame>, gs: seq<Frame>, d: nat, p: nat)
    requires |fs| == |gs| > 0 && gs[..|fs| - 1] == fs[..|fs| - 1] && RunsBelow(fs, |fs|, d) && d != p
    requires RunsOnly(fs[|fs| - 1], p)
    ensures RunsBelow(gs, |gs|, d)
  {
    var b :| 0 <= b < |fs| && fs[b].Runs(d);
    assert b < |fs| - 1;
    assert gs[b] == gs[..|fs| - 1][b];
  }

  /** A new call. */
  lemma PushTop(s: State, t: nat, fs: seq<Frame>, f: Frame)
    requires Marks(s, t, fs) && Passed(s, fs) && (f.Init? ==> f.i == 0) && RunsNone(f)
    ensures Marks(s, t, fs + [f]) && Passed(s, fs + [f])
  {
    var gs := fs + [f];
    forall d | s.Visitor(d) == t ensures RunsBelow(gs, |gs|, d) {
      var b :| 0 <= b < |fs| && fs[b].Runs(d);
      assert gs[b].Runs(d);
    }
    forall a, j | 0 <= a < |gs| && gs[a].Init? && 0 <= j < gs[a].i && j < |gs[a].queue|
      ensures gs[a].queue[j] in s.constructed || RunsBelow(gs, a, gs[a].queue[j])
    {
      SameRuns(fs, gs, a, gs[a].queue[j]);
    }
  }

  /** The top call returns. */
  lemma PopTop(s: State, t: nat, fs: seq<Frame>)
    requires fs != [] && Marks(s, t, fs) && Passed(s, fs) && RunsNone(fs[|fs| - 1])
    ensures Marks(s, t, fs[..|fs| - 1]) && Passed(s, fs[..|fs| - 1])
  {
    var gs := fs[..|fs| - 1];
    forall d | s.Visitor(d) == t ensures RunsBelow(gs, |gs|, d) {
      var b :| 0 <= b < |fs| && fs[b].Runs(d);
      assert gs[b].Runs(d);
    }
    forall a, j | 0 <= a < |gs| && gs[a].Init? && 0 <= j < gs[a].i && j < |gs[a].queue|
      ensures gs[a].queue[j] in s.constructed || RunsBelow(gs, a, gs[a].queue[j])
    {
      SameRuns(fs, gs, a, gs[a].queue[j]);
    }
  }

  // ---------------------------------------------------------------------------------
  // The steps one by one

  /** All of Inv but what it says of the calls of each thread. */
  ghost predicate Shared(withFini: set<nat>, s: State) {
    && (s.holder != 0 ==> s.Calls(s.holder) != [] && Top(s, s.holder).Holds())
    && Started(s) && Listed(withFini, s) && Finalized(s)
  }

  /** What a step of t has to establish. */
  ghost predicate StepOk(withFini: set<nat>, s: State, t: nat, s': State) {
    Polite(s, s', t) && ThreadOk(s', t) && Shared(withFini, s')
  }

  lemma FromStep(withFini: set<nat>, s: State, t: nat, s': State)
    requires Inv(withFini, s) && t > 0 && StepOk(withFini, s, t, s')
    ensures Inv(withFini, s')
  {
    hide ThreadOk, Polite, Started, Listed, Finalized;
    forall u: nat | u > 0 ensures ThreadOk(s', u) {
      if u != t {
        assert ThreadOk(s, u);
        OthersOk(s, s', t, u);
      }
    }
  }

  ghost predicate SameData(s: State, s': State) {
    && s'.visitor == s.visitor && s'.constructed == s.constructed && s'.fini == s.fini && s'.down == s.down
    && s'.starts == s.starts && s'.finis == s.finis
  }

  /** Steps that change no shared data keep what is said about it. */
  lemma DataKept(withFini: set<nat>, s: State, t: nat, s': State)
    requires Shared(withFini, s) && t > 0 && SameData(s, s') && s'.exiter == s.exiter
    requires forall u: nat | u != t :: s'.Calls(u) == s.Calls(u)
    requires s.holder == s'.holder != t || ((s.holder == 0 || s.holder == t) && (s'.holder == 0 || s'.holder == t))
    requires !Busy(s, t, Link) && !Busy(s, t, Finish) && !Busy(s', t, Link) && !Busy(s', t, Finish)
    requires s.exiter != t
    requires s'.holder == t ==> s'.Calls(t) != [] && Top(s', t).Holds()
    ensures Shared(withFini, s')
  {
    assert forall d :: s'.Visitor(d) == s.Visitor(d);
    assert Busy(s, s.holder, Link) <==> Busy(s', s'.holder, Link);
    assert Busy(s, s.holder, Finish) <==> Busy(s', s'.holder, Finish);
    assert forall d :: BeingFinished(s, d) <==> BeingFinished(s', d);
  }

  /** Enter and Wait take the lock, Test gives it back to wait or goes on, Body ends; also the
      branch of Decide that skips an object. */
  lemma MoveOk(withFini: set<nat>, s: State, t: nat, f: Frame, s': State)
    requires Inv(withFini, s) && t > 0 && s.Calls(t) != [] && f.Init?
    requires var g := Top(s, t);
             && g.Init? && g.pc != Link && g.pc != Finish && g.pc != Relock && f.pc != Link && f.pc != Finish
             && f.queue == g.queue && g.i <= f.i <= g.i + 1 && f.i <= |f.queue| && f.pc != Over
             && (forall d :: f.Runs(d) == g.Runs(d))
             && (f.i > g.i ==> f.queue[g.i] in s.constructed || RunsBelow(s.Calls(t), |s.Calls(t)| - 1, f.queue[g.i]))
             && (f.pc == Decide || f.pc == Body || f.pc == Relock ==> f.i < |f.queue|)
    requires s' == s.(holder := s'.holder).WithTop(t, f)
    requires s.holder == s'.holder || s.holder == 0 || s.holder == t
    requires (f.Holds() <==> s'.holder == t) && (s'.holder == 0 || s'.holder == t || s'.holder == s.holder)
    requires f.pc == Decide ==> !s.down && (s.Visitor(f.queue[f.i]) == 0 || s.Visitor(f.queue[f.i]) == t)
    ensures StepOk(withFini, s, t, s')
  {
    hide Started, Listed, Finalized, Marks, Passed, Shape, RunsBelow;
    var fs := s.Calls(t);
    assert s'.Calls(t) == Retop(fs, f);
    assert ThreadOk(s, t);
    NotExiter(withFini, s, t);
    MoveTop(s, s', t, fs, f);
    RetopShape(fs, f);
    DataKept(withFini, s, t, s');
  }

  /** The top call may be replaced by f. */
  ghost predicate FitsTop(f: Frame) {
    if f.Exit? then f.pc == Enter || f.pc == Wait || f.pc == Test || f.pc == Over
    else
      && f.i <= |f.queue| && f.pc != Over
      && (f.pc == Decide || f.pc == Link || f.pc == Body || f.pc == Relock || f.pc == Finish ==> f.i < |f.queue|)
  }

  lemma RetopShape(fs: seq<Frame>, f: Frame)
    requires fs != [] && Shape(fs) && FitsTop(f)
    ensures Shape(Retop(fs, f))
  {
  }

  lemma TopFits(fs: seq<Frame>)
    requires fs != [] && Shape(fs)
    ensures FitsTop(fs[|fs| - 1])
  {
  }

  /** The top call runs what the visitor marks say. */
  lemma TopMarked(s: State, t: nat, fs: seq<Frame>, d: nat)
    requires fs != [] && Marks(s, t, fs) && fs[|fs| - 1].Runs(d)
    ensures s.Visitor(d) == t
  {
  }

  lemma MarkedStarted(s: State, p: nat)
    requires Started(s) && s.Visitor(p) != 0
    ensures p in s.starts && p !in s.constructed
  {
  }

  lemma FreshStart(s: State, p: nat)
    requires Started(s) && !Busy(s, s.holder, Finish) && s.Visitor(p) == 0 && p !in s.constructed
    ensures p !in s.starts
  {
  }

  lemma NotExiter(withFini: set<nat>, s: State, t: nat)
    requires Shared(withFini, s) && s.Calls(t) != [] && Top(s, t).Init? && t > 0
    ensures s.exiter != t
  {
  }

  lemma ReturnOk(withFini: set<nat>, s: State, t: nat, s': State)
    requires Inv(withFini, s) && t > 0 && Busy(s, t, Test)
    requires s' == s.(holder := 0, calls := s.calls[t := s.Calls(t)[..|s.Calls(t)| - 1]])
    ensures StepOk(withFini, s, t, s')
  {
    hide Started, Listed, Finalized;
    var fs := s.Calls(t);
    assert ThreadOk(s, t);
    NotExiter(withFini, s, t);
    assert s'.Calls(t) == fs[..|fs| - 1];
    assert RunsNone(Top(s, t));
    PopTop(s, t, fs);
    PopTopSame(s, s', t, fs[..|fs| - 1]);
    DataKept(withFini, s, t, s');
  }

  lemma PopTopSame(s: State, s': State, t: nat, fs: seq<Frame>)
    requires Marks(s, t, fs) && Passed(s, fs) && s'.visitor == s.visitor && s'.constructed == s.constructed
    ensures Marks(s', t, fs) && Passed(s', fs)
  {
    assert forall d :: s'.Visitor(d) == s.Visitor(d);
  }

  /** Decide, when the constructor of p is to start. */
  lemma ClaimOk(withFini: set<nat>, s: State, t: nat, s': State)
    requires Inv(withFini, s) && t > 0 && Busy(s, t, Decide)
    requires var g := Top(s, t);
             && g.i < |g.queue| && s.Visitor(g.queue[g.i]) == 0 && g.queue[g.i] !in s.constructed
             && s' == s.(visitor := s.visitor[g.queue[g.i] := t], starts := s.starts + [g.queue[g.i]])
                       .WithTop(t, Init(g.queue, g.i, Link))
    ensures StepOk(withFini, s, t, s')
  {
    hide Started, Listed, Finalized, Marks, Passed, Shape, RunsBelow;
    var fs, g := s.Calls(t), Top(s, t);
    var p, f := g.queue[g.i], Init(g.queue, g.i, Link);
    assert ThreadOk(s, t);
    assert s'.Calls(t) == Retop(fs, f);
    assert RunsOnly(f, p) && RunsNone(g);
    ClaimTop(s, s', t, fs, f, p);
    RetopShape(fs, f);
    FreshStart(s, p);
    ClaimShared(withFini, s, t, s', p);
  }

  lemma ClaimShared(withFini: set<nat>, s: State, t: nat, s': State, p: nat)
    requires Inv(withFini, s) && t > 0 && Busy(s, t, Decide) && s.holder == t && !s.down && p !in s.starts
    requires s.Visitor(p) == 0 && p !in s.constructed
    requires s'.starts == s.starts + [p] && s'.constructed == s.constructed && s'.fini == s.fini && s'.finis == s.finis
    requires s'.down == s.down && s'.holder == t && s'.exiter == s.exiter && Busy(s', t, Link)
    requires forall d :: s'.Visitor(d) == if d == p then t else s.Visitor(d)
    requires forall u: nat | u != t :: s'.Calls(u) == s.Calls(u)
    ensures Shared(withFini, s')
  {
    NotExiter(withFini, s, t);
    assert s'.starts[..|s'.starts| - 1] == s.starts;
    if s.exiter != 0 {
      assert ThreadOk(s, s.exiter);
    }
  }

  /** Link: the object enters the finalizer list and the lock is given back. */
  lemma LinkOk(withFini: set<nat>, s: State, t: nat, s': State)
    requires Inv(withFini, s) && t > 0 && Busy(s, t, Link)
    requires var g := Top(s, t);
             && g.i < |g.queue|
             && s' == s.(fini := if g.queue[g.i] in withFini then [g.queue[g.i]] + s.fini else s.fini, holder := 0)
                       .WithTop(t, Init(g.queue, g.i, Body))
    ensures StepOk(withFini, s, t, s')
  {
    hide Started, Listed, Finalized, Marks, Passed, Shape, RunsBelow;
    var fs, g := s.Calls(t), Top(s, t);
    var f := Init(g.queue, g.i, Body);
    assert ThreadOk(s, t);
    assert s'.Calls(t) == Retop(fs, f);
    assert forall d :: s'.Visitor(d) == s.Visitor(d);
    assert forall d :: f.Runs(d) == g.Runs(d);
    MoveTop(s, s', t, fs, f);
    RetopShape(fs, f);
    assert Polite(s, s', t);
    LinkShared(withFini, s, t, s');
  }

  lemma LinkShared(withFini: set<nat>, s: State, t: nat, s': State)
    requires Inv(withFini, s) && t > 0 && Busy(s, t, Link)
    requires var g := Top(s, t);
             && g.i < |g.queue| && !s.down && s.holder == t
             && s.starts != [] && s.starts[|s.starts| - 1] == g.queue[g.i]
             && s' == s.(fini := if g.queue[g.i] in withFini then [g.queue[g.i]] + s.fini else s.fini, holder := 0)
                       .WithTop(t, Init(g.queue, g.i, Body))
    ensures Shared(withFini, s')
  {
    assert forall d :: s'.Visitor(d) == s.Visitor(d);
    NotExiter(withFini, s, t);
    if s.exiter != 0 {
      assert ThreadOk(s, s.exiter);
    }
  }

  lemma NotPassed(withFini: set<nat>, s: State, p: nat)
    requires Shared(withFini, s) && s.exiter != 0 && s.Visitor(p) != s.exiter && p !in s.constructed
    ensures p !in s.fini[..Top(s, s.exiter).k]
  {
  }

  /** Relock: the constructor of p has ended, its mark is taken away. */
  lemma RelockOk(withFini: set<nat>, s: State, t: nat, s': State)
    requires Inv(withFini, s) && t > 0 && Busy(s, t, Relock) && s.holder == 0
    requires var g := Top(s, t);
             && g.i < |g.queue|
             && s' == s.(holder := t, visitor := s.visitor[g.queue[g.i] := 0]).WithTop(t, Init(g.queue, g.i, Finish))
    ensures StepOk(withFini, s, t, s')
  {
    hide Started, Listed, Finalized, Marks, Passed, Shape, RunsBelow;
    var fs, g := s.Calls(t), Top(s, t);
    var p, f := g.queue[g.i], Init(g.queue, g.i, Finish);
    assert ThreadOk(s, t);
    assert s'.Calls(t) == Retop(fs, f);
    assert RunsOnly(g, p) && RunsNone(f);
    assert g.Runs(p);
    TopMarked(s, t, fs, p);
    MarkedStarted(s, p);
    ReleaseTop(s, s', t, fs, f, p);
    RetopShape(fs, f);
    assert Polite(s, s', t);
    RelockShared(withFini, s, t, s', p);
  }

  lemma RelockShared(withFini: set<nat>, s: State, t: nat, s': State, p: nat)
    requires Inv(withFini, s) && t > 0 && Busy(s, t, Relock) && s.holder == 0 && s.Visitor(p) == t
    requires s'.starts == s.starts && s'.constructed == s.constructed && s'.fini == s.fini && s'.finis == s.finis
    requires s'.down == s.down && s'.holder == t && s'.exiter == s.exiter
    requires Busy(s', t, Finish) && Top(s', t).Finishes(p)
    requires forall d :: s'.Visitor(d) == if d == p then 0 else s.Visitor(d)
    requires forall u: nat | u != t :: s'.Calls(u) == s.Calls(u)
    ensures Shared(withFini, s')
  {
    NotExiter(withFini, s, t);
    assert BeingFinished(s', p);
    if s.exiter != 0 {
      NotPassed(withFini, s, p);
    }
  }

  lemma {:induction false} OnlyMore(s: seq<nat>, keep: set<nat>, p: nat)
    requires p !in s
    ensures Only(s, keep + {p}) == Only(s, keep)
  {
    if |s| > 0 {
      OnlyMore(s[..|s| - 1], keep, p);
    }
  }

  /** Finish: p is recorded as constructed. */
  lemma FinishOk(withFini: set<nat>, s: State, t: nat, s': State)
    requires Inv(withFini, s) && t > 0 && Busy(s, t, Finish)
    requires var g := Top(s, t);
             && g.i < |g.queue|
             && s' == s.(constructed := s.constructed + {g.queue[g.i]}).WithTop(t, Init(g.queue, g.i + 1, Test))
    ensures StepOk(withFini, s, t, s')
  {
    hide Started, Listed, Finalized, Marks, Passed, Shape, RunsBelow;
    var fs, g := s.Calls(t), Top(s, t);
    var p, f := g.queue[g.i], Init(g.queue, g.i + 1, Test);
    assert ThreadOk(s, t);
    assert s'.Calls(t) == Retop(fs, f);
    assert forall d :: s'.Visitor(d) == s.Visitor(d);
    MoveTop(s, s', t, fs, f);
    RetopShape(fs, f);
    assert Polite(s, s', t);
    FinishShared(withFini, s, t, s', p);
  }

  lemma FinishShared(withFini: set<nat>, s: State, t: nat, s': State, p: nat)
    requires Inv(withFini, s) && t > 0 && Busy(s, t, Finish) && s.holder == t && Top(s, t).Finishes(p)
    requires s.Visitor(p) == 0 && p !in s.constructed && p in s.starts
    requires s'.visitor == s.visitor && s'.constructed == s.constructed + {p}
    requires s'.starts == s.starts && s'.fini == s.fini && s'.finis == s.finis
    requires s'.down == s.down && s'.holder == t && s'.exiter == s.exiter && Busy(s', t, Test)
    requires forall u: nat | u != t :: s'.Calls(u) == s.Calls(u)
    ensures Shared(withFini, s')
  {
    NotExiter(withFini, s, t);
    assert forall d :: s'.Visitor(d) == s.Visitor(d);
    assert forall d | BeingFinished(s, d) :: d == p;
    if s.exiter != 0 {
      NotPassed(withFini, s, p);
      OnlyMore(s.fini[..Top(s, s.exiter).k], s.constructed, p);
    }
  }

  lemma CallOk(withFini: set<nat>, s: State, t: nat, q: seq<nat>, s': State)
    requires Inv(withFini, s) && t > 0 && (s.Calls(t) == [] || Top(s, t).pc == Body)
    requires s' == s.(calls := s.calls[t := s.Calls(t) + [Init(q, 0, Enter)]])
    ensures StepOk(withFini, s, t, s')
  {
    hide Started, Listed, Finalized;
    PushOk(withFini, s, t, Init(q, 0, Enter), s');
    DataKept(withFini, s, t, s');
  }

  lemma CallExitOk(withFini: set<nat>, s: State, t: nat, s': State)
    requires Inv(withFini, s) && t > 0 && (s.Calls(t) == [] || Top(s, t).pc == Body) && s.exiter == 0
    requires s' == s.(calls := s.calls[t := s.Calls(t) + [Exit(0, Enter)]], exiter := t)
    ensures StepOk(withFini, s, t, s')
  {
    PushOk(withFini, s, t, Exit(0, Enter), s');
    ExitShared(withFini, s, t, s');
  }

  lemma ExitShared(withFini: set<nat>, s: State, t: nat, s': State)
    requires Shared(withFini, s) && t > 0 && s.holder != t && s.exiter == 0
    requires SameData(s, s') && s'.holder == s.holder && s'.exiter == t
    requires s'.Calls(t) != [] && Top(s', t) == Exit(0, Enter)
    requires forall u: nat | u != t :: s'.Calls(u) == s.Calls(u)
    ensures Shared(withFini, s')
  {
    assert forall d :: s'.Visitor(d) == s.Visitor(d);
    assert forall d :: BeingFinished(s, d) <==> BeingFinished(s', d);
    assert s'.fini[..0] == [];
  }

  lemma PushOk(withFini: set<nat>, s: State, t: nat, f: Frame, s': State)
    requires Inv(withFini, s) && t > 0 && (s.Calls(t) == [] || Top(s, t).pc == Body)
    requires (f.Init? && f.i == 0 && f.pc == Enter) || (f == Exit(0, Enter) && s.exiter == 0 && s'.exiter == t)
    requires s'.Calls(t) == s.Calls(t) + [f] && SameData(s, s') && s'.holder == s.holder
    requires forall u: nat | u != t :: s'.Calls(u) == s.Calls(u)
    requires s.exiter != 0 ==> s'.exiter == s.exiter
    ensures Polite(s, s', t) && ThreadOk(s', t) && s.exiter != t && s.holder != t
  {
    hide Started, Listed;
    var fs := s.Calls(t);
    assert ThreadOk(s, t);
    assert RunsNone(f);
    PushTop(s, t, fs, f);
    PopTopSame(s, s', t, fs + [f]);
    PushShape(fs, f);
    assert forall d :: s'.Visitor(d) == s.Visitor(d);
  }

  lemma PushShape(fs: seq<Frame>, f: Frame)
    requires Shape(fs) && (fs == [] || fs[|fs| - 1].pc == Body)
    requires (f.Init? && f.i == 0 && f.pc == Enter) || f == Exit(0, Enter)
    ensures Shape(fs + [f])
  {
  }

  /** The exit call takes the lock, first of all to announce the shutdown, or gives it back to
      wait for a constructor of another thread, or is over. */
  lemma ExitMoveOk(withFini: set<nat>, s: State, t: nat, f: Frame, s': State)
    requires Inv(withFini, s) && t > 0 && s.Calls(t) != [] && Top(s, t).Exit? && f.Exit? && f.k == Top(s, t).k
    requires s.holder == 0 || s.holder == t
    requires f.pc == Wait || f.pc == Test || (f.pc == Over && f.k == |s.fini|)
    requires s' == s.(holder := if f.Holds() then t else 0, down := true).WithTop(t, f)
    requires Top(s, t).pc != Enter ==> s.down
    ensures StepOk(withFini, s, t, s')
  {
    hide Started, Listed, Finalized, Marks, Passed, Shape, RunsBelow;
    var fs := s.Calls(t);
    assert ThreadOk(s, t);
    assert s'.Calls(t) == Retop(fs, f);
    assert forall d :: s'.Visitor(d) == s.Visitor(d);
    assert RunsNone(f) && RunsNone(Top(s, t));
    MoveTop(s, s', t, fs, f);
    RetopShape(fs, f);
    assert Polite(s, s', t);
    ExitIsT(withFini, s, t);
    ExitMoveShared(withFini, s, t, f, s');
  }

  lemma ExitIsT(withFini: set<nat>, s: State, t: nat)
    requires Inv(withFini, s) && t > 0 && s.Calls(t) != [] && Top(s, t).Exit?
    ensures s.exiter == t
  {
    assert ThreadOk(s, t);
  }

  lemma ExitMoveShared(withFini: set<nat>, s: State, t: nat, f: Frame, s': State)
    requires Shared(withFini, s) && t > 0 && s.exiter == t && s.Calls(t) != [] && Top(s, t).Exit? && f.Exit?
    requires f.k == Top(s, t).k && (s.holder == 0 || s.holder == t) && f.pc != Enter
    requires s' == s.(holder := if f.Holds() then t else 0, down := true).WithTop(t, f)
    ensures Shared(withFini, s')
  {
    assert forall d :: s'.Visitor(d) == s.Visitor(d);
    assert forall d :: !BeingFinished(s, d) && !BeingFinished(s', d);
    assert Top(s', t) == f;
  }

  lemma {:induction false} ReversedMember(withFini: set<nat>, starts: seq<nat>, d: nat)
    requires d in Reversed(withFini, starts)
    ensures d in starts
  {
    if |starts| > 0 {
      var rest := starts[..|starts| - 1];
      if d != starts[|starts| - 1] {
        ReversedMember(withFini, rest, d);
      }
      assert starts == rest + [starts[|starts| - 1]];
    }
  }

  /** The exit call passes an object of the finalizer list, running its finalizers if it is
      constructed; otherwise it is itself constructing that object. */
  lemma ExitPassOk(withFini: set<nat>, s: State, t: nat, s': State)
    requires Inv(withFini, s) && t > 0 && s.Calls(t) != [] && Top(s, t).Exit? && Top(s, t).pc == Test
    requires var k := Top(s, t).k;
             && k < |s.fini|
             && (s.Visitor(s.fini[k]) == 0 || s.Visitor(s.fini[k]) == t)
             && s' == s.(finis := if s.fini[k] in s.constructed then s.finis + [s.fini[k]] else s.finis)
                       .WithTop(t, Exit(k + 1, Test))
    ensures StepOk(withFini, s, t, s')
  {
    hide Started, Listed, Finalized, Marks, Passed, Shape, RunsBelow;
    var fs, k := s.Calls(t), Top(s, t).k;
    var f, p := Exit(k + 1, Test), s.fini[k];
    assert ThreadOk(s, t);
    assert s'.Calls(t) == Retop(fs, f);
    assert forall d :: s'.Visitor(d) == s.Visitor(d);
    assert RunsNone(f) && RunsNone(Top(s, t));
    MoveTop(s, s', t, fs, f);
    RetopShape(fs, f);
    assert Polite(s, s', t);
    ExitIsT(withFini, s, t);
    ExitPassShared(withFini, s, t, s', k);
  }

  lemma ExitPassShared(withFini: set<nat>, s: State, t: nat, s': State, k: nat)
    requires Shared(withFini, s) && t > 0 && s.Calls(t) != [] && Top(s, t) == Exit(k, Test) && s.exiter == t == s.holder
    requires k < |s.fini| && (s.Visitor(s.fini[k]) == 0 || s.Visitor(s.fini[k]) == t)
    requires s' == s.(finis := if s.fini[k] in s.constructed then s.finis + [s.fini[k]] else s.finis)
                    .WithTop(t, Exit(k + 1, Test))
    ensures Shared(withFini, s')
  {
    hide Started, Finalized;
    var p := s.fini[k];
    assert Top(s', t) == Exit(k + 1, Test);
    assert Listed(withFini, s');
    ReversedMember(withFini, s.starts, p);
    ExitPassStarted(s, s', p);
    ExitPassFinalized(s, t, s', k);
  }

  lemma ExitPassStarted(s: State, s': State, p: nat)
    requires Started(s) && s'.visitor == s.visitor && s'.constructed == s.constructed && s'.starts == s.starts
    requires !Busy(s, s.holder, Finish) && p in s.starts
    ensures Started(s') && (s.Visitor(p) != 0 || p in s.constructed)
  {
    assert forall d :: s'.Visitor(d) == s.Visitor(d);
    assert forall d :: !BeingFinished(s, d);
  }

  lemma ExitPassFinalized(s: State, t: nat, s': State, k: nat)
    requires Finalized(s) && t > 0 && s.Calls(t) != [] && Top(s, t) == Exit(k, Test) && s.exiter == t
    requires k < |s.fini| && (s.fini[k] in s.constructed || s.Visitor(s.fini[k]) == t)
    requires s'.visitor == s.visitor && s'.constructed == s.constructed && s'.fini == s.fini && s'.exiter == t
    requires s'.finis == if s.fini[k] in s.constructed then s.finis + [s.fini[k]] else s.finis
    requires s'.Calls(t) != [] && Top(s', t) == Exit(k + 1, Test)
    ensures Finalized(s')
  {
    var p := s.fini[k];
    assert forall d :: s'.Visitor(d) == s.Visitor(d);
    assert s.fini[..k + 1][..k] == s.fini[..k];
    assert Only(s.fini[..k + 1], s.constructed) ==
           if p in s.constructed then Only(s.fini[..k], s.constructed) + [p] else Only(s.fini[..k], s.constructed);
  }

  // ---------------------------------------------------------------------------------
  // Whole runs

  lemma TestOk(withFini: set<nat>, s: State, t: nat)
    requires Inv(withFini, s) && t > 0 && Busy(s, t, Test)
    ensures StepOk(withFini, s, t, StepInit(withFini, s, t, Top(s, t)))
  {
    hide Started, Listed, Finalized, Marks, Passed, StepOk, Shape, RunsBelow;
    var f := Top(s, t);
    var s' := StepInit(withFini, s, t, f);
    assert ThreadOk(s, t);
    TopFits(s.Calls(t));
    if f.i >= |f.queue| {
      ReturnOk(withFini, s, t, s');
    } else if (s.Visitor(f.queue[f.i]) != 0 && s.Visitor(f.queue[f.i]) != t) || s.down {
      MoveOk(withFini, s, t, Init(f.queue, f.i, Wait), s');
    } else {
      MoveOk(withFini, s, t, Init(f.queue, f.i, Decide), s');
    }
  }

  lemma DecideOk(withFini: set<nat>, s: State, t: nat)
    requires Inv(withFini, s) && t > 0 && Busy(s, t, Decide)
    ensures StepOk(withFini, s, t, StepInit(withFini, s, t, Top(s, t)))
  {
    hide Started, Listed, Finalized, Marks, Passed, StepOk, Shape, RunsBelow;
    var f := Top(s, t);
    var s' := StepInit(withFini, s, t, f);
    assert ThreadOk(s, t);
    TopFits(s.Calls(t));
    var p := f.queue[f.i];
    if s.Visitor(p) == 0 && p !in s.constructed {
      ClaimOk(withFini, s, t, s');
    } else {
      SkippedRuns(s, t, s.Calls(t), p);
      MoveOk(withFini, s, t, Init(f.queue, f.i + 1, Test), s');
    }
  }

  lemma PlainOk(withFini: set<nat>, s: State, t: nat)
    requires Inv(withFini, s) && t > 0 && s.Calls(t) != [] && Top(s, t).Init?
    requires ((Top(s, t).pc == Enter || Top(s, t).pc == Wait) && s.holder == 0) || Top(s, t).pc == Body
    ensures StepOk(withFini, s, t, StepInit(withFini, s, t, Top(s, t)))
  {
    hide Started, Listed, Finalized, Marks, Passed, StepOk, Shape, RunsBelow;
    var f := Top(s, t);
    var s' := StepInit(withFini, s, t, f);
    assert ThreadOk(s, t);
    TopFits(s.Calls(t));
    MoveOk(withFini, s, t, Init(f.queue, f.i, if f.pc == Body then Relock else Test), s');
  }

  lemma DataOk(withFini: set<nat>, s: State, t: nat)
    requires Inv(withFini, s) && t > 0 && s.Calls(t) != [] && Top(s, t).Init?
    requires Top(s, t).pc == Link || (Top(s, t).pc == Relock && s.holder == 0) || Top(s, t).pc == Finish
    ensures StepOk(withFini, s, t, StepInit(withFini, s, t, Top(s, t)))
  {
    hide Started, Listed, Finalized, Marks, Passed, StepOk, Shape, RunsBelow, Locked;
    var f := Top(s, t);
    var s' := StepInit(withFini, s, t, f);
    assert ThreadOk(s, t);
    TopFits(s.Calls(t));
    if f.pc == Link {
      LinkOk(withFini, s, t, s');
    } else if f.pc == Relock {
      RelockOk(withFini, s, t, s');
    } else {
      FinishOk(withFini, s, t, s');
    }
  }

  lemma InitStepOk(withFini: set<nat>, s: State, t: nat)
    requires Inv(withFini, s) && Enabled(s, t, Go) && Top(s, t).Init?
    ensures StepOk(withFini, s, t, StepInit(withFini, s, t, Top(s, t)))
  {
    hide Inv, StepOk, StepInit;
    match Top(s, t).pc
    case Enter => PlainOk(withFini, s, t);
    case Wait => PlainOk(withFini, s, t);
    case Body => PlainOk(withFini, s, t);
    case Test => TestOk(withFini, s, t);
    case Decide => DecideOk(withFini, s, t);
    case Link => DataOk(withFini, s, t);
    case Relock => DataOk(withFini, s, t);
    case Finish => DataOk(withFini, s, t);
  }

  /** An object that the top call finds marked by its own thread runs further down. */
  lemma SkippedRuns(s: State, t: nat, fs: seq<Frame>, p: nat)
    requires fs != [] && Marks(s, t, fs) && RunsNone(fs[|fs| - 1])
    ensures s.Visitor(p) == t ==> RunsBelow(fs, |fs| - 1, p)
  {
    if s.Visitor(p) == t {
      var b :| 0 <= b < |fs| && fs[b].Runs(p);
      assert b < |fs| - 1;
    }
  }

  lemma ExitStepOk(withFini: set<nat>, s: State, t: nat)
    requires Inv(withFini, s) && Enabled(s, t, Go) && Top(s, t).Exit?
    ensures StepOk(withFini, s, t, StepExit(s, t, Top(s, t)))
  {
    hide Started, Listed, Finalized, Marks, Passed, Polite;
    var fs, f := s.Calls(t), Top(s, t);
    var s' := StepExit(s, t, f);
    assert ThreadOk(s, t);
    TopFits(fs);
    if f.pc == Enter || f.pc == Wait {
      ExitMoveOk(withFini, s, t, Exit(f.k, Test), s');
    } else if f.k >= |s.fini| {
      ExitMoveOk(withFini, s, t, Exit(f.k, Over), s');
    } else if s.Visitor(s.fini[f.k]) != 0 && s.Visitor(s.fini[f.k]) != t {
      ExitMoveOk(withFini, s, t, Exit(f.k, Wait), s');
    } else {
      ExitPassOk(withFini, s, t, s');
    }
  }

  lemma StepKeeps(withFini: set<nat>, s: State, t: nat, a: Action)
    requires Inv(withFini, s) && Enabled(s, t, a)
    ensures Inv(withFini, Next(withFini, s, t, a))
  {
    hide Inv, StepOk;
    var s' := Next(withFini, s, t, a);
    if a.Call? {
      CallOk(withFini, s, t, a.queue, s');
    } else if a.CallExit? {
      CallExitOk(withFini, s, t, s');
    } else if Top(s, t).Init? {
      InitStepOk(withFini, s, t);
    } else {
      ExitStepOk(withFini, s, t);
    }
    FromStep(withFini, s, t, s');
  }

  lemma InvThread(withFini: set<nat>, s: State, t: nat)
    requires Inv(withFini, s) && t > 0
    ensures ThreadOk(s, t)
  {
  }

  lemma {:induction false} RunKeepsInv(withFini: set<nat>, ss: seq<State>, acts: seq<(nat, Action)>, k: nat)
    requires Run(withFini, ss, acts) && k < |ss|
    ensures Inv(withFini, ss[k])
  {
    if k > 0 {
      hide Inv;
      RunKeepsInv(withFini, ss, acts, k - 1);
      assert ss[k - 1 + 1] == Next(withFini, ss[k - 1], acts[k - 1].0, acts[k - 1].1);
      StepKeeps(withFini, ss[k - 1], acts[k - 1].0, acts[k - 1].1);
    }
  }

  /** In every run each constructor starts at most once. */
  lemma ConstructorsStartOnce(withFini: set<nat>, ss: seq<State>, acts: seq<(nat, Action)>, k: nat)
    requires Run(withFini, ss, acts) && k < |ss|
    ensures NoDup(ss[k].starts)
  {
    RunKeepsInv(withFini, ss, acts, k);
  }

  /** No constructor starts once the shutdown is announced. */
  lemma {:induction false} NoStartAfterShutdown(withFini: set<nat>, ss: seq<State>, acts: seq<(nat, Action)>, j: nat,
                                                k: nat)
    requires Run(withFini, ss, acts) && j <= k < |ss| && ss[j].down
    ensures ss[k].down && ss[k].starts == ss[j].starts
  {
    hide Inv, ThreadOk, Next;
    if j < k {
      NoStartAfterShutdown(withFini, ss, acts, j, k - 1);
      RunKeepsInv(withFini, ss, acts, k - 1);
      var t := acts[k - 1].0;
      assert ss[k - 1 + 1] == Next(withFini, ss[k - 1], t, acts[k - 1].1);
      InvThread(withFini, ss[k - 1], t);
      DownStays(withFini, ss[k - 1], t, acts[k - 1].1);
    }
  }

  lemma DownStays(withFini: set<nat>, s: State, t: nat, a: Action)
    requires Enabled(s, t, a) && s.down && ThreadOk(s, t)
    ensures var s' := Next(withFini, s, t, a); s'.down && s'.starts == s.starts
  {
    hide Marks, Passed;
    if a.Go? {
      TopFits(s.Calls(t));
    }
  }

  /** When do_init_fini returns, each object of its queue is constructed or is being constructed
      by the calling thread itself. */
  lemma ReturnsConstructed(withFini: set<nat>, ss: seq<State>, acts: seq<(nat, Action)>, k: nat, t: nat, d: nat)
    requires Run(withFini, ss, acts) && k < |ss| && t > 0 && Busy(ss[k], t, Test)
    requires var f := Top(ss[k], t); f.i == |f.queue| && d in f.queue
    ensures d in ss[k].constructed || ss[k].Visitor(d) == t
  {
    RunKeepsInv(withFini, ss, acts, k);
    var s, fs := ss[k], ss[k].Calls(t);
    assert ThreadOk(s, t);
    var f := Top(s, t);
    var j :| 0 <= j < |f.queue| && f.queue[j] == d;
    assert f == fs[|fs| - 1];
    if d !in s.constructed {
      assert RunsBelow(fs, |fs| - 1, d);
      var b :| 0 <= b < |fs| - 1 && fs[b].Runs(d);
    }
  }

  lemma {:induction false} OnlyKept(s: seq<nat>, keep: set<nat>)
    requires NoDup(s)
    ensures NoDup(Only(s, keep)) && forall d :: d in Only(s, keep) <==> d in s && d in keep
  {
    if |s| > 0 {
      var init, last := s[..|s| - 1], s[|s| - 1];
      assert s == init + [last];
      OnlyKept(init, keep);
    }
  }

  lemma {:induction false} ReversedNoDup(withFini: set<nat>, starts: seq<nat>)
    requires NoDup(starts)
    ensures NoDup(Reversed(withFini, starts))
  {
    if |starts| > 0 {
      var init, last := starts[..|starts| - 1], starts[|starts| - 1];
      assert starts == init + [last];
      ReversedNoDup(withFini, init);
      if last in Reversed(withFini, init) {
        ReversedMember(withFini, init, last);
      }
    }
  }

  lemma {:induction false} ReversedHas(withFini: set<nat>, starts: seq<nat>, d: nat)
    requires d in starts && d in withFini
    ensures d in Reversed(withFini, starts)
  {
    var init, last := starts[..|starts| - 1], starts[|starts| - 1];
    assert starts == init + [last];
    if d != last {
      ReversedHas(withFini, init, d);
    }
  }

  /** How far the exit call has come in the finalizer list. */
  function PassedFinis(s: State): (n: nat) {
    if s.exiter != 0 && s.Calls(s.exiter) != [] && Top(s, s.exiter).Exit? then Top(s, s.exiter).k else 0
  }

  lemma ExitList(withFini: set<nat>, s: State)
    requires Inv(withFini, s)
    ensures PassedFinis(s) <= |s.fini| && s.finis == Only(s.fini[..PassedFinis(s)], s.constructed)
    ensures PassedFinis(s) > 0 || s.down ==> s.fini == Reversed(withFini, s.starts)
  {
    hide Marks, Passed, Shape;
    if s.exiter != 0 {
      InvThread(withFini, s, s.exiter);
      if s.holder != 0 {
        InvThread(withFini, s, s.holder);
        HolderFits(withFini, s);
      }
    }
  }

  lemma HolderFits(withFini: set<nat>, s: State)
    requires Inv(withFini, s) && s.holder != 0
    ensures s.Calls(s.holder) != [] && FitsTop(Top(s, s.holder))
  {
    InvThread(withFini, s, s.holder);
    TopFits(s.Calls(s.holder));
  }

  lemma {:induction false} PrefixNoDup(s: seq<nat>, n: nat)
    requires NoDup(s) && n <= |s|
    ensures NoDup(s[..n])
  {
  }

  /** Finalizers run at most once, for constructed objects only, in the reverse order in which the
      constructors started: what has run is the constructed part of what the exit call has passed,
      and when it is over that is every constructed object with finalizers. */
  lemma FinalizersInReverse(withFini: set<nat>, ss: seq<State>, acts: seq<(nat, Action)>, k: nat)
    requires Run(withFini, ss, acts) && k < |ss|
    ensures var s, order := ss[k], Reversed(withFini, ss[k].starts);
            && (PassedFinis(s) == 0 ==> s.finis == [])
            && (PassedFinis(s) > 0 ==> PassedFinis(s) <= |order|)
            && (PassedFinis(s) > 0 ==> s.finis == Only(order[..PassedFinis(s)], s.constructed))
            && NoDup(s.finis) && (forall d | d in s.finis :: d in s.constructed)
            && (s.exiter != 0 && s.Calls(s.exiter) != [] && Top(s, s.exiter).pc == Over ==>
                  forall d | d in s.constructed && d in withFini :: d in s.finis)
  {
    RunKeepsInv(withFini, ss, acts, k);
    var s, n := ss[k], PassedFinis(ss[k]);
    ExitList(withFini, s);
    ReversedNoDup(withFini, s.starts);
    if n > 0 {
      PrefixNoDup(s.fini, n);
      OnlyKept(s.fini[..n], s.constructed);
    }
    if s.exiter != 0 && s.Calls(s.exiter) != [] && Top(s, s.exiter).pc == Over {
      AllFinalized(withFini, s);
    }
  }

  lemma AllFinalized(withFini: set<nat>, s: State)
    requires Inv(withFini, s) && s.exiter != 0 && s.Calls(s.exiter) != [] && Top(s, s.exiter).pc == Over
    ensures forall d | d in s.constructed && d in withFini :: d in s.finis
  {
    InvThread(withFini, s, s.exiter);
    ExitList(withFini, s);
    ReversedNoDup(withFini, s.starts);
    assert s.fini[..|s.fini|] == s.fini;
    OnlyKept(s.fini, s.constructed);
    forall d | d in s.constructed && d in withFini ensures d in s.finis {
      ReversedHas(withFini, s.starts, d);
    }
  }
}
