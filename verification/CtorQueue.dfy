/** Lists of indirect dependencies and the order of constructors. */
module CtorQueue {
  import opened Basics
  import opened DepGraph

  const NULL: int := -1

  /** v is reached from u in at least one step. */
  ghost predicate Below(g: Graph, u: nat, v: nat) {
    exists d: nat :: Edge(g, u, d) && Reach(g, d, v)
  }

  /** l is a complete breadth-first list for u: direct dependencies first, then each further
      object that u depends on, once. */
  ghost predicate Complete(g: Graph, u: nat, l: seq<nat>)
    requires u < |g|
  {
    && g[u] <= l
    && (forall v: nat :: v in l <==> Below(g, u, v))
    && (forall i, j | 0 <= i < j < |l| && |g[u]| <= j :: l[i] != l[j])
  }

  /** The one buffer holds the output from its start and the stack from its end. */
  ghost predicate Buffer(q: seq<int>, qpos: nat, spos: nat, out: seq<nat>, stack: seq<nat>) {
    && qpos == |out| && spos + |stack| == |q| && qpos < spos
    && (forall i | 0 <= i < qpos :: q[i] == out[i])
    && (forall i | 0 <= i < |stack| :: q[|q| - 1 - i] == stack[i])
  }

  lemma ReachSplit(g: Graph, u: nat, v: nat)
    requires Reach(g, u, v) && u != v && WellFormed(g)
    ensures Below(g, u, v)
  {
    var s :| Path(g, s) && s[0] == u && s[|s| - 1] == v;
    SubPath(g, s, 1, |s| - 1);
    assert Edge(g, s[0], s[0 + 1]);
  }

  /** The graph of direct dependencies: the first ndirect[u] entries of each list. */
  function Direct(deps: seq<seq<nat>>, ndirect: seq<nat>): (g: Graph)
    requires |ndirect| == |deps|
    requires forall u | 0 <= u < |deps| :: ndirect[u] <= |deps[u]| && Within(deps, deps[u])
    ensures |g| == |deps| && WellFormed(g)
    ensures forall u | 0 <= u < |g| :: g[u] == deps[u][..ndirect[u]]
  {
    var g := seq(|deps|, u requires 0 <= u < |deps| => deps[u][..ndirect[u]]);
    assert forall u | 0 <= u < |deps| :: g[u] == deps[u][..ndirect[u]] && Within(deps, deps[u]);
    assert forall u | 0 <= u < |deps| :: Within(g, g[u]);
    g
  }

  lemma SameDirect(deps: seq<seq<nat>>, ndirect: seq<nat>, p: nat, list: seq<nat>)
    requires |ndirect| == |deps| && p < |deps|
    requires forall u | 0 <= u < |deps| :: ndirect[u] <= |deps[u]| && Within(deps, deps[u])
    requires Within(deps, list) && deps[p][..ndirect[p]] <= list
    ensures forall u | 0 <= u < |deps| ::
              ndirect[u] <= |deps[p := list][u]| && Within(deps[p := list], deps[p := list][u])
    ensures Direct(deps[p := list], ndirect) == Direct(deps, ndirect)
  {
    var deps' := deps[p := list];
    assert list[..ndirect[p]] == deps[p][..ndirect[p]];
    forall u | 0 <= u < |deps| ensures deps'[u][..ndirect[u]] == deps[u][..ndirect[u]] {
    }
    assert forall u | 0 <= u < |deps| :: Within(deps, deps'[u]);
    assert forall u | 0 <= u < |deps| :: Within(deps', deps'[u]);
  }

  class Linker {
    var deps: seq<seq<nat>>
    var ndirect: seq<nat>
    var mark: seq<bool>
    var nextDep: seq<nat>
    var bfsBuilt: seq<bool>

    /** The lists of dependencies are in order; the methods below change other fields. */
    ghost predicate Lists()
      reads this`deps, this`ndirect, this`bfsBuilt
    {
      && |ndirect| == |deps| && |bfsBuilt| == |deps|
      && (forall u | 0 <= u < |deps| :: ndirect[u] <= |deps[u]| && Within(deps, deps[u]))
      && (forall u | 0 <= u < |deps| && bfsBuilt[u] :: Complete(Direct(deps, ndirect), u, deps[u]))
      && (forall u | 0 <= u < |deps| && !bfsBuilt[u] :: ndirect[u] == |deps[u]|)
    }

    ghost predicate Valid()
      reads this
    {
      Lists() && |mark| == |deps| && |nextDep| == |deps|
    }

    /** The graph of direct dependencies. */
    function G(): (g: Graph)
      requires Lists()
      reads this`deps, this`ndirect, this`bfsBuilt
    {
      Direct(deps, ndirect)
    }

    /** extend_bfs_deps, when no allocation fails: the list of p becomes complete and all marks,
        clear at the start, are clear again. */
    method ExtendBfsDeps(p: nat)
      requires Valid() && p < |deps| && forall u | 0 <= u < |mark| :: !mark[u]
      modifies this`deps, this`mark, this`bfsBuilt
      ensures Valid() && |deps| == old(|deps|) && bfsBuilt == old(bfsBuilt)[p := true]
      ensures G() == old(G()) && Complete(G(), p, deps[p])
      ensures forall u | 0 <= u < |deps| && u != p :: deps[u] == old(deps[u])
      ensures forall u | 0 <= u < |mark| :: !mark[u]
    {
      if bfsBuilt[p] {
        assert bfsBuilt == bfsBuilt[p := true];
        return;
      }
      ghost var g := G();
      assert deps[p][..ndirect[p]] == deps[p];
      var m, i := mark, 0;
      while i < |deps[p]|
        invariant i <= |deps[p]| && |m| == |deps|
        invariant forall u: nat | u < |deps| :: m[u] <==> u in deps[p][..i]
      {
        m := m[deps[p][i] := true];
        assert deps[p][..i + 1] == deps[p][..i] + [deps[p][i]];
        i := i + 1;
      }
      assert deps[p][..i] == deps[p];
      var list, m' := GrowList(G(), p, m);
      SameDirect(deps, ndirect, p, list);
      deps := deps[p := list];
      bfsBuilt := bfsBuilt[p := true];
      mark := seq(|deps|, u => false);
    }

    /** The first part of queue_ctors: clear the marks of all objects that may be met and
        bound their number, by the dependency list if there is a complete one. */
    method ClearMarks(root: nat) returns (cnt: nat, ghost all: seq<nat>)
      requires Valid() && root < |deps|
      modifies this`mark
      ensures Valid() && cnt == |all|
      ensures forall u: nat | Reach(G(), root, u) :: u in all
      ensures forall u: nat | u < |deps| && Reach(G(), root, u) && u != root :: !mark[u]
      ensures forall u | 0 <= u < |deps| :: mark[u] ==> old(mark[u])
    {
      cnt := 0;
      if bfsBuilt[root] {
        while cnt < |deps[root]|
          invariant cnt <= |deps[root]| && Valid()
          invariant forall i | 0 <= i < cnt :: !mark[deps[root][i]]
          invariant forall u | 0 <= u < |deps| :: mark[u] ==> old(mark[u])
        {
          mark := mark[deps[root][cnt] := false];
          cnt := cnt + 1;
        }
        cnt := cnt + 1;
        all := [root] + deps[root];
      } else {
        while cnt < |deps|
          invariant cnt <= |deps| && Valid()
          invariant forall i | 0 <= i < cnt :: !mark[i]
          invariant forall u | 0 <= u < |deps| :: mark[u] ==> old(mark[u])
        {
          mark := mark[cnt := false];
          cnt := cnt + 1;
        }
        all := seq(|deps|, i => i);
      }
      forall u: nat | Reach(G(), root, u) ensures u in all && (u != root ==> u < |deps| && !mark[u]) {
        ReachInside(G(), root, u);
        if u != root {
          ReachSplit(G(), root, u);
        }
        assert !bfsBuilt[root] ==> u == all[u];
      }
    }

    /** queue_ctors: the objects that root depends on, each once and after its dependencies
        unless these depend on it, ended by NULL. */
    method QueueCtors(root: nat) returns (queue: array<int>, qpos: nat, ghost out: seq<nat>)
      requires Valid() && root < |deps|
      modifies this`mark, this`nextDep
      ensures Valid() && fresh(queue)
      ensures qpos == |out| < queue.Length && queue[qpos] == NULL && forall i | 0 <= i < qpos :: queue[i] == out[i]
      ensures Within(G(), out) && NoDup(out) && Finished(G(), out)
      ensures forall u: nat :: u in out <==> Reach(G(), root, u)
      ensures forall u | 0 <= u < |deps| :: mark[u] ==> old(mark[u]) && u !in out
    {
      var g := G();
      var cnt;
      ghost var all;
      cnt, all := ClearMarks(root);
      ghost var cleared := mark;
      queue, qpos, mark, nextDep, out := Sort(g, root, cnt + 1, mark, nextDep, all);
      ClearQueue(queue, qpos, out);
      assert forall u: nat | u < |deps| && mark[u] :: cleared[u];
    }

    /** The last loop of queue_ctors. */
    method ClearQueue(queue: array<int>, qpos: nat, ghost out: seq<nat>)
      requires Valid() && qpos == |out| <= queue.Length && Within(deps, out)
      requires forall i | 0 <= i < qpos :: queue[i] == out[i]
      modifies this`mark
      ensures Valid()
      ensures forall u: nat | u < |deps| :: mark[u] == (old(mark[u]) && u !in out)
    {
      var i := 0;
      while i < qpos
        invariant i <= qpos && Valid()
        invariant forall u: nat | u < |deps| :: mark[u] == (old(mark[u]) && u !in out[..i])
      {
        mark := mark[queue[i] := false];
        assert out[..i + 1] == out[..i] + [out[i]];
        i := i + 1;
      }
      assert out[..i] == out;
    }
  }

  lemma ReachInside(g: Graph, u: nat, v: nat)
    requires WellFormed(g) && u < |g| && Reach(g, u, v)
    ensures v < |g|
  {
    var s :| Path(g, s) && s[0] == u && s[|s| - 1] == v;
    if |s| > 1 {
      assert Edge(g, s[|s| - 2], s[|s| - 2 + 1]);
    }
  }

  // ---------------------------------------------------------------------------------
  // Breadth-first lists

  /** The list under construction: marks say what is in it, all of it is below p, what was
      appended is new, and the entries before i have all their dependencies in it. */
  ghost predicate Bfs(g: Graph, p: nat, list: seq<nat>, i: nat, mark: seq<bool>) {
    && WellFormed(g) && p < |g| && |mark| == |g| && Within(g, list) && i <= |list|
    && g[p] <= list
    && (forall u: nat | u < |g| :: mark[u] <==> u in list)
    && (forall v | v in list :: Below(g, p, v))
    && (forall a, b | 0 <= a < b < |list| && |g[p]| <= b :: list[a] != list[b])
    && (forall k, d | 0 <= k < i && d in g[list[k]] :: d in list)
  }

  lemma BelowStep(g: Graph, p: nat, u: nat, v: nat)
    requires Below(g, p, u) && Edge(g, u, v)
    ensures Below(g, p, v)
  {
    var d: nat :| Edge(g, p, d) && Reach(g, d, u);
    ReachStep(g, d, u, v);
  }

  lemma BfsStart(g: Graph, p: nat, mark: seq<bool>)
    requires WellFormed(g) && p < |g| && |mark| == |g|
    requires forall u: nat | u < |g| :: mark[u] <==> u in g[p]
    ensures Bfs(g, p, g[p], 0, mark)
  {
    forall v | v in g[p] ensures Below(g, p, v) {
      ReachSelf(g, v);
      assert Edge(g, p, v);
    }
  }

  lemma BfsAppend(g: Graph, p: nat, list: seq<nat>, i: nat, mark: seq<bool>, d: nat)
    requires Bfs(g, p, list, i, mark) && i < |list| && d in g[list[i]] && d < |g| && !mark[d]
    ensures Bfs(g, p, list + [d], i, mark[d := true])
  {
    hide Below;
    assert list[i] in list && Edge(g, list[i], d);
    BelowStep(g, p, list[i], d);
    var list' := list + [d];
    assert forall u :: u in list' <==> u in list || u == d;
    assert forall k | 0 <= k < i :: list'[k] == list[k];
  }

  lemma BfsDone(g: Graph, p: nat, list: seq<nat>, mark: seq<bool>)
    requires Bfs(g, p, list, |list|, mark)
    ensures Complete(g, p, list)
  {
    var s := ToSet(list);
    forall v: nat | Below(g, p, v) ensures v in list {
      var d: nat :| Edge(g, p, d) && Reach(g, d, v);
      assert d in list by {
        var k :| 0 <= k < |g[p]| && g[p][k] == d;
        assert list[k] == d;
      }
      ReachStays(g, s, d, v);
    }
  }

  /** How many entries of s are unmarked. */
  function UnmarkedIn(s: seq<nat>, mark: seq<bool>): (c: nat)
    requires forall i | 0 <= i < |s| :: s[i] < |mark|
  {
    if |s| == 0 then 0
    else UnmarkedIn(s[..|s| - 1], mark) + if mark[s[|s| - 1]] then 0 else 1
  }

  /** The second loop of extend_bfs_deps, which runs over the list as it grows; what it appends
      for one entry fits the space reserved for it. */
  method GrowList(g: Graph, p: nat, mark0: seq<bool>) returns (list: seq<nat>, mark: seq<bool>)
    requires WellFormed(g) && p < |g| && |mark0| == |g|
    requires forall u: nat | u < |g| :: mark0[u] <==> u in g[p]
    ensures Complete(g, p, list) && Within(g, list) && |mark| == |g|
  {
    hide Bfs;
    list, mark := g[p], mark0;
    BfsStart(g, p, mark);
    var i := 0;
    BfsShape(g, p, list, i, mark);
    while i < |list|
      invariant i <= |list| && Bfs(g, p, list, i, mark) && |mark| == |g| && Within(g, list)
      decreases |list| - i + Unmarked(mark)
    {
      list, mark := AppendDeps(g, p, list, i, mark);
      i := i + 1;
      BfsShape(g, p, list, i, mark);
    }
    BfsDone(g, p, list, mark);
  }

  lemma BfsShape(g: Graph, p: nat, list: seq<nat>, i: nat, mark: seq<bool>)
    requires Bfs(g, p, list, i, mark)
    ensures WellFormed(g) && |mark| == |g| && Within(g, list)
  {
  }

  /** One entry of the list: count its unmarked dependencies, then append and mark them. */
  method AppendDeps(g: Graph, p: nat, list0: seq<nat>, i: nat, mark0: seq<bool>)
    returns (list: seq<nat>, mark: seq<bool>)
    requires Bfs(g, p, list0, i, mark0) && i < |list0|
    ensures Bfs(g, p, list, i + 1, mark) && |list0| <= |list|
    ensures |list| + Unmarked(mark) == |list0| + Unmarked(mark0)
  {
    hide Bfs;
    BfsShape(g, p, list0, i, mark0);
    var dep := list0[i];
    var cnt := CountUnmarked(g[dep], mark0);
    list, mark := list0, mark0;
    var j := 0;
    while j < |g[dep]|
      invariant j <= |g[dep]| && list0 <= list && |mark| == |g|
      invariant Bfs(g, p, list, i, mark)
      invariant forall k | 0 <= k < j :: mark[g[dep][k]]
      invariant forall u | 0 <= u < |g| && mark0[u] :: mark[u]
      invariant |list| + Unmarked(mark) == |list0| + Unmarked(mark0)
      invariant |list| <= |list0| + UnmarkedIn(g[dep][..j], mark0)
    {
      var d := g[dep][j];
      assert g[dep][..j + 1][..j] == g[dep][..j];
      if !mark[d] {
        BfsAppend(g, p, list, i, mark, d);
        UnmarkedLess(mark, d);
        list, mark := list + [d], mark[d := true];
      }
      j := j + 1;
    }
    assert g[dep][..j] == g[dep];
    assert |list| <= |list0| + cnt;
    BfsNext(g, p, list, i, mark);
  }

  lemma BfsNext(g: Graph, p: nat, list: seq<nat>, i: nat, mark: seq<bool>)
    requires Bfs(g, p, list, i, mark) && i < |list|
    requires forall k | 0 <= k < |g[list[i]]| :: mark[g[list[i]][k]]
    ensures Bfs(g, p, list, i + 1, mark)
  {
    hide Below;
    forall d | d in g[list[i]] ensures d in list {
      var k :| 0 <= k < |g[list[i]]| && g[list[i]][k] == d;
      assert mark[d];
    }
  }

  /** The counting loop of extend_bfs_deps. */
  method CountUnmarked(s: seq<nat>, mark: seq<bool>) returns (cnt: nat)
    requires forall i | 0 <= i < |s| :: s[i] < |mark|
    ensures cnt == UnmarkedIn(s, mark)
  {
    cnt := 0;
    var j := 0;
    while j < |s|
      invariant j <= |s| && cnt == UnmarkedIn(s[..j], mark)
    {
      assert s[..j + 1][..j] == s[..j];
      if !mark[s[j]] {
        cnt := cnt + 1;
      }
      j := j + 1;
    }
    assert s[..j] == s;
  }

  /** The pseudo-DFS sort of queue_ctors in a buffer of cnt slots. */
  method Sort(g: Graph, root: nat, cnt: nat, mark0: seq<bool>, next0: seq<nat>, ghost all: seq<nat>)
    returns (queue: array<int>, qpos: nat, mark: seq<bool>, next: seq<nat>, ghost out: seq<nat>)
    requires WellFormed(g) && |mark0| == |g| && |next0| == |g| && root < |g| && cnt == |all| + 1
    requires forall u: nat | Reach(g, root, u) :: u in all
    requires forall u: nat | u < |g| && Reach(g, root, u) && u != root :: !mark0[u]
    ensures fresh(queue) && qpos == |out| < queue.Length && queue[qpos] == NULL
    ensures forall i | 0 <= i < qpos :: queue[i] == out[i]
    ensures Within(g, out) && NoDup(out) && Finished(g, out)
    ensures forall u: nat :: u in out <==> Reach(g, root, u)
    ensures |next| == |g| && SameElsewhere(g, root, mark0, mark)
  {
    hide Dfs;
    queue := new int[cnt](i => NULL);
    ReachSelf(g, root);
    assert root in all;
    var spos: nat := cnt - 1;
    queue[spos] := root;
    qpos, next, mark := 0, next0[root := 0], mark0[root := true];
    out := [];
    ghost var path := [root];
    DfsStart(g, root, mark, next);
    while spos < cnt
      invariant queue.Length == cnt && fresh(queue)
      invariant Dfs(g, root, out, path, mark, next)
      invariant Buffer(queue[..], qpos, spos, out, path)
      invariant SameElsewhere(g, root, mark0, mark)
      decreases cnt - qpos
    {
      var p;
      ghost var m := mark;
      spos, p, mark, next, path := Descend(g, queue, qpos, spos, root, mark, next, out, path, all);
      DfsFinish(g, root, out, path, mark, next);
      DfsRoom(g, root, out, path, mark, next, all);
      SameTwice(g, root, mark0, m, mark);
      qpos := Output(queue, qpos, spos, p, out, path[..|path| - 1]);
      out, path := out + [p], path[..|path| - 1];
    }
    queue[qpos] := NULL;
    DfsDone(g, root, out, mark, next);
    DfsSize(g, root, out, path, mark, next);
  }

  lemma DfsSize(g: Graph, root: nat, out: seq<nat>, path: seq<nat>, mark: seq<bool>, next: seq<nat>)
    requires Dfs(g, root, out, path, mark, next)
    ensures |next| == |g| && |mark| == |g|
  {
  }

  /** One iteration of the outer loop of queue_ctors: take the object on top of the stack and go
      down to unmarked dependencies until one has none left. */
  method Descend(g: Graph, queue: array<int>, qpos: nat, spos0: nat, root: nat, mark0: seq<bool>, next0: seq<nat>,
                 ghost out: seq<nat>, ghost path0: seq<nat>, ghost all: seq<nat>)
    returns (spos: nat, p: nat, mark: seq<bool>, next: seq<nat>, ghost path: seq<nat>)
    requires path0 != [] && Dfs(g, root, out, path0, mark0, next0)
    requires queue.Length == |all| + 1 && Buffer(queue[..], qpos, spos0, out, path0)
    requires forall u: nat | Reach(g, root, u) :: u in all
    modifies queue
    ensures path != [] && p == path[|path| - 1] && p < |g|
    ensures Dfs(g, root, out, path, mark, next) && next[p] == |g[p]|
    ensures Buffer(queue[..], qpos, spos, out, path[..|path| - 1])
    ensures SameElsewhere(g, root, mark0, mark)
  {
    hide Dfs;
    TopBuffer(queue[..], qpos, spos0, out, path0);
    p, spos := queue[spos0], spos0 + 1;
    mark, next, path := mark0, next0, path0;
    DfsTop(g, root, out, path, mark, next);
    while next[p] < |g[p]|
      invariant path != [] && p == path[|path| - 1] && InTop(g, p, mark, next)
      invariant Dfs(g, root, out, path, mark, next)
      invariant Buffer(queue[..], qpos, spos, out, path[..|path| - 1])
      invariant SameElsewhere(g, root, mark0, mark)
      decreases Unmarked(mark), |g[p]| - next[p]
    {
      var d := g[p][next[p]];
      if mark[d] {
        DfsAdvance(g, root, out, path, mark, next);
        next := next[p := next[p] + 1];
        DfsTop(g, root, out, path, mark, next);
      } else {
        UnmarkedLess(mark, d);
        spos, mark, next, path := GoDown(g, queue, qpos, spos, root, mark, next, p, d, out, path, all, mark0);
        p := d;
        DfsTop(g, root, out, path, mark, next);
      }
    }
  }

  /** The else branch of the inner loop: p waits on the stack for d. */
  method GoDown(g: Graph, queue: array<int>, qpos: nat, spos0: nat, root: nat, mark0: seq<bool>, next0: seq<nat>,
                p: nat, d: nat, ghost out: seq<nat>, ghost path0: seq<nat>, ghost all: seq<nat>, ghost m: seq<bool>)
    returns (spos: nat, mark: seq<bool>, next: seq<nat>, ghost path: seq<nat>)
    requires path0 != [] && p == path0[|path0| - 1] && Dfs(g, root, out, path0, mark0, next0)
    requires next0[p] < |g[p]| && d == g[p][next0[p]] && !mark0[d]
    requires queue.Length == |all| + 1 && Buffer(queue[..], qpos, spos0, out, path0[..|path0| - 1])
    requires forall u: nat | Reach(g, root, u) :: u in all
    requires SameElsewhere(g, root, m, mark0)
    modifies queue
    ensures mark == mark0[d := true] && next == next0[d := 0] && path == path0 + [d]
    ensures Dfs(g, root, out, path, mark, next) && SameElsewhere(g, root, m, mark)
    ensures Buffer(queue[..], qpos, spos, out, path[..|path| - 1])
  {
    DfsPush(g, root, out, path0, mark0, next0);
    DfsRoom(g, root, out, path0 + [d], mark0[d := true], next0[d := 0], all);
    MarkReached(g, root, m, mark0, d);
    spos := Push(queue, qpos, spos0, p, out, path0);
    mark, next, path := mark0[d := true], next0[d := 0], path0 + [d];
    assert path[..|path| - 1] == path0;
  }

  lemma TopBuffer(q: seq<int>, qpos: nat, spos: nat, out: seq<nat>, path: seq<nat>)
    requires path != [] && Buffer(q, qpos, spos, out, path)
    ensures spos < |q| && q[spos] == path[|path| - 1]
    ensures Buffer(q, qpos, spos + 1, out, path[..|path| - 1])
  {
  }

  /** Marks of objects that root does not reach are the same. */
  ghost predicate SameElsewhere(g: Graph, root: nat, m: seq<bool>, m': seq<bool>) {
    |m| == |m'| && forall u: nat | u < |m| && m[u] != m'[u] :: Reach(g, root, u)
  }

  lemma MarkReached(g: Graph, root: nat, m: seq<bool>, m': seq<bool>, d: nat)
    requires SameElsewhere(g, root, m, m') && d < |m| && Reach(g, root, d)
    ensures SameElsewhere(g, root, m, m'[d := true])
  {
  }

  lemma SameTwice(g: Graph, root: nat, a: seq<bool>, b: seq<bool>, c: seq<bool>)
    requires SameElsewhere(g, root, a, b) && SameElsewhere(g, root, b, c)
    ensures SameElsewhere(g, root, a, c)
  {
  }

  function Unmarked(mark: seq<bool>): (n: nat) {
    multiset(mark)[false]
  }

  lemma UnmarkedLess(mark: seq<bool>, d: nat)
    requires d < |mark| && !mark[d]
    ensures Unmarked(mark[d := true]) == Unmarked(mark) - 1
  {
  }

  /** stack[--spos] = p */
  method Push(queue: array<int>, qpos: nat, spos: nat, p: nat, ghost out: seq<nat>, ghost path: seq<nat>)
    returns (spos': nat)
    requires path != [] && p == path[|path| - 1] && qpos + 1 < spos
    requires Buffer(queue[..], qpos, spos, out, path[..|path| - 1])
    modifies queue
    ensures Buffer(queue[..], qpos, spos', out, path)
  {
    spos' := spos - 1;
    queue[spos'] := p;
  }

  /** queue[qpos++] = p */
  method Output(queue: array<int>, qpos: nat, spos: nat, p: nat, ghost out: seq<nat>, ghost stack: seq<nat>)
    returns (qpos': nat)
    requires qpos + 1 < spos && Buffer(queue[..], qpos, spos, out, stack)
    modifies queue
    ensures Buffer(queue[..], qpos', spos, out + [p], stack)
  {
    queue[qpos] := p;
    qpos' := qpos + 1;
  }
}
