/** Dependency graphs: reachability, and the state of the depth-first search that orders
    constructors. */
module DepGraph {
  import opened Basics

  /** g[u] lists the direct dependencies of object u. */
  type Graph = seq<seq<nat>>

  ghost predicate WellFormed(g: Graph) {
    forall u | 0 <= u < |g| :: Within(g, g[u])
  }

  /** All entries of s are objects of g. */
  ghost predicate Within(g: Graph, s: seq<nat>) {
    forall i | 0 <= i < |s| :: s[i] < |g|
  }

  ghost predicate Edge(g: Graph, u: nat, v: nat) {
    u < |g| && v in g[u]
  }

  /** s is a path along direct dependencies. */
  ghost predicate Path(g: Graph, s: seq<nat>) {
    |s| > 0 && forall i | 0 <= i < |s| - 1 :: Edge(g, s[i], s[i + 1])
  }

  /** v is u or a direct or indirect dependency of u. */
  ghost predicate Reach(g: Graph, u: nat, v: nat) {
    exists s :: Path(g, s) && s[0] == u && s[|s| - 1] == v
  }

  lemma ReachSelf(g: Graph, u: nat)
    ensures Reach(g, u, u)
  {
    assert Path(g, [u]);
  }

  lemma ReachStep(g: Graph, u: nat, v: nat, w: nat)
    requires Reach(g, u, v) && Edge(g, v, w)
    ensures Reach(g, u, w)
  {
    var s :| Path(g, s) && s[0] == u && s[|s| - 1] == v;
    var t := s + [w];
    forall i | 0 <= i < |t| - 1 ensures Edge(g, t[i], t[i + 1]) {
      if i < |s| - 1 {
        assert Edge(g, s[i], s[i + 1]);
      }
    }
    assert Path(g, t);
  }

  ghost predicate Closed(g: Graph, s: set<nat>) {
    forall u, v | u in s && Edge(g, u, v) :: v in s
  }

  lemma {:induction false} PathStays(g: Graph, s: set<nat>, p: seq<nat>, k: nat)
    requires Closed(g, s) && Path(g, p) && p[0] in s && k < |p|
    ensures p[k] in s
  {
    if k > 0 {
      PathStays(g, s, p, k - 1);
      assert Edge(g, p[k - 1], p[k - 1 + 1]);
    }
  }

  lemma ReachStays(g: Graph, s: set<nat>, u: nat, v: nat)
    requires Closed(g, s) && u in s && Reach(g, u, v)
    ensures v in s
  {
    var p :| Path(g, p) && p[0] == u && p[|p| - 1] == v;
    PathStays(g, s, p, |p| - 1);
  }

  /** Later entries of a path are reached from earlier ones. */
  lemma SubPath(g: Graph, p: seq<nat>, i: nat, j: nat)
    requires Path(g, p) && i <= j < |p|
    ensures Reach(g, p[i], p[j])
  {
    var s := p[i..j + 1];
    forall k | 0 <= k < |s| - 1 ensures Edge(g, s[k], s[k + 1]) {
      assert Edge(g, p[i + k], p[i + k + 1]);
    }
    assert Path(g, s);
  }

  function ToSet(s: seq<nat>): (r: set<nat>) {
    set x | x in s
  }

  lemma {:induction false} SetSize(s: seq<nat>)
    ensures |ToSet(s)| <= |s|
    ensures NoDup(s) ==> |ToSet(s)| == |s|
  {
    if |s| > 0 {
      var t := s[..|s| - 1];
      SetSize(t);
      assert ToSet(s) == ToSet(t) + {s[|s| - 1]};
    }
  }

  lemma {:induction false} SubsetSize(a: set<nat>, b: set<nat>)
    requires a <= b
    ensures |a| <= |b|
  {
    if a != {} {
      var x :| x in a;
      SubsetSize(a - {x}, b - {x});
    }
  }

  /** What one search owes: out is finished, path leads from the root to the current object. */
  ghost predicate Dfs(g: Graph, root: nat, out: seq<nat>, path: seq<nat>, mark: seq<bool>, next: seq<nat>) {
    && WellFormed(g) && |mark| == |g| && |next| == |g|
    && Within(g, out) && Within(g, path) && NoDup(out + path)
    && (forall u: nat | u < |g| && Reach(g, root, u) :: mark[u] <==> u in out || u in path)
    && Stacked(g, root, path, next)
    && (forall u | u in path :: next[u] <= |g[u]| && forall j | 0 <= j < next[u] :: mark[g[u][j]])
    && Finished(g, out) && (forall u, d | u in out && d in g[u] :: mark[d])
    && (forall u | u in out || u in path :: Reach(g, root, u))
    && (root in out || root in path)
  }

  /** Each object on the stack waits for the next one. */
  ghost predicate Stacked(g: Graph, root: nat, path: seq<nat>, next: seq<nat>)
    requires Within(g, path) && |next| == |g|
  {
    && (path != [] ==> path[0] == root)
    && forall i | 0 <= i < |path| - 1 :: next[path[i]] < |g[path[i]]| && g[path[i]][next[path[i]]] == path[i + 1]
  }

  /** The order promised: a dependency comes first unless it depends on its dependent. */
  ghost predicate Finished(g: Graph, out: seq<nat>)
    requires Within(g, out)
  {
    forall i, d | 0 <= i < |out| && d in g[out[i]] :: d in out[..i] || Reach(g, d, out[i])
  }

  lemma StackedPath(g: Graph, root: nat, path: seq<nat>, next: seq<nat>)
    requires Within(g, path) && |next| == |g| && Stacked(g, root, path, next) && path != []
    ensures Path(g, path)
  {
  }

  lemma DfsStart(g: Graph, root: nat, mark: seq<bool>, next: seq<nat>)
    requires WellFormed(g) && |mark| == |g| && |next| == |g| && root < |g|
    requires forall u: nat | u < |g| && Reach(g, root, u) :: mark[u] == (u == root)
    requires next[root] == 0
    ensures Dfs(g, root, [], [root], mark, next)
  {
    ReachSelf(g, root);
  }

  /** The dependency looked at is marked: go on to the next one. */
  lemma DfsAdvance(g: Graph, root: nat, out: seq<nat>, path: seq<nat>, mark: seq<bool>, next: seq<nat>)
    requires Dfs(g, root, out, path, mark, next) && path != []
    requires var p := path[|path| - 1]; next[p] < |g[p]| && mark[g[p][next[p]]]
    ensures var p := path[|path| - 1]; Dfs(g, root, out, path, mark, next[p := next[p] + 1])
  {
    var p := path[|path| - 1];
    assert (out + path)[|out| + |path| - 1] == p;
    forall i | 0 <= i < |path| - 1 ensures path[i] != p {
      assert (out + path)[|out| + i] != (out + path)[|out| + |path| - 1];
    }
  }

  /** An unmarked dependency: it becomes the current object. */
  lemma DfsPush(g: Graph, root: nat, out: seq<nat>, path: seq<nat>, mark: seq<bool>, next: seq<nat>)
    requires Dfs(g, root, out, path, mark, next) && path != []
    requires var p := path[|path| - 1]; next[p] < |g[p]| && !mark[g[p][next[p]]]
    ensures var p := path[|path| - 1]; var d := g[p][next[p]];
            Dfs(g, root, out, path + [d], mark[d := true], next[d := 0]) && Reach(g, root, d)
  {
    hide Reach, Finished, NoDup;
    var p := path[|path| - 1];
    var d := g[p][next[p]];
    assert Edge(g, p, d);
    ReachStep(g, root, p, d);
    assert d !in out && d !in path;
    PushNoDup(out, path, d);
    PushStacked(g, root, path, next, d);
    var mark' := mark[d := true];
    assert forall u | 0 <= u < |g| && mark[u] :: mark'[u];
    assert forall u :: u in path + [d] <==> u in path || u == d;
  }

  lemma PushNoDup(out: seq<nat>, path: seq<nat>, d: nat)
    requires NoDup(out + path) && d !in out && d !in path
    ensures NoDup(out + (path + [d]))
  {
    var a := out + (path + [d]);
    assert a == out + path + [d];
    forall i, j | 0 <= i < j < |a| ensures a[i] != a[j] {
      if j < |a| - 1 {
        assert (out + path)[i] != (out + path)[j];
      } else {
        assert (out + path)[i] in out || (out + path)[i] in path;
      }
    }
  }

  lemma PushStacked(g: Graph, root: nat, path: seq<nat>, next: seq<nat>, d: nat)
    requires Within(g, path) && |next| == |g| && path != [] && Stacked(g, root, path, next) && d < |g| && d !in path
    requires var p := path[|path| - 1]; next[p] < |g[p]| && d == g[p][next[p]]
    ensures Within(g, path + [d]) && Stacked(g, root, path + [d], next[d := 0])
  {
    var path' := path + [d];
    forall i | 0 <= i < |path'| - 1
      ensures next[d := 0][path'[i]] < |g[path'[i]]| && g[path'[i]][next[d := 0][path'[i]]] == path'[i + 1]
    {
      assert path'[i] == path[i] && path[i] in path;
    }
  }

  /** All dependencies are marked: the current object is finished. */
  lemma DfsFinish(g: Graph, root: nat, out: seq<nat>, path: seq<nat>, mark: seq<bool>, next: seq<nat>)
    requires Dfs(g, root, out, path, mark, next) && path != []
    requires var p := path[|path| - 1]; next[p] == |g[p]|
    ensures Dfs(g, root, out + [path[|path| - 1]], path[..|path| - 1], mark, next)
  {
    hide Reach, Finished, NoDup;
    var p := path[|path| - 1];
    var out', path' := out + [p], path[..|path| - 1];
    assert path == path' + [p];
    forall d | d in g[p] ensures d < |g| && mark[d] && (d in out || Reach(g, d, p)) {
      FinishOne(g, root, out, path, mark, next, d);
    }
    FinishOrder(g, out, p);
    FinishNoDup(out, path', p);
    FinishSets(g, out, path, mark);
    assert Stacked(g, root, path', next);
  }

  lemma FinishSets(g: Graph, out: seq<nat>, path: seq<nat>, mark: seq<bool>)
    requires Within(g, out) && Within(g, path) && WellFormed(g) && |mark| == |g| && path != []
    requires forall u, d | u in out && d in g[u] :: mark[d]
    requires forall d | d in g[path[|path| - 1]] :: mark[d]
    ensures var out', path' := out + [path[|path| - 1]], path[..|path| - 1];
            && Within(g, out') && Within(g, path')
            && (forall u :: u in out' || u in path' <==> u in out || u in path)
            && (forall u | u in path' :: u in path)
            && (forall u, d | u in out' && d in g[u] :: mark[d])
  {
    var out', path' := out + [path[|path| - 1]], path[..|path| - 1];
    assert path == path' + [path[|path| - 1]];
  }

  lemma FinishOne(g: Graph, root: nat, out: seq<nat>, path: seq<nat>, mark: seq<bool>, next: seq<nat>, d: nat)
    requires Dfs(g, root, out, path, mark, next) && path != []
    requires var p := path[|path| - 1]; next[p] == |g[p]| && d in g[p]
    ensures d < |g| && mark[d] && (d in out || Reach(g, d, path[|path| - 1]))
  {
    var p := path[|path| - 1];
    var j :| 0 <= j < |g[p]| && g[p][j] == d;
    assert mark[d];
    assert Edge(g, p, d);
    ReachStep(g, root, p, d);
    if d in path {
      var i :| 0 <= i < |path| && path[i] == d;
      StackedPath(g, root, path, next);
      SubPath(g, path, i, |path| - 1);
    }
  }

  lemma FinishOrder(g: Graph, out: seq<nat>, p: nat)
    requires Within(g, out) && Finished(g, out) && p < |g|
    requires forall d | d in g[p] :: d in out || Reach(g, d, p)
    ensures Within(g, out + [p]) && Finished(g, out + [p])
  {
    var out' := out + [p];
    forall i, d | 0 <= i < |out'| && d in g[out'[i]] ensures d in out'[..i] || Reach(g, d, out'[i]) {
      if i < |out| {
        assert out'[..i] == out[..i] && out'[i] == out[i];
      } else {
        assert out'[..i] == out;
      }
    }
  }

  lemma FinishNoDup(out: seq<nat>, path: seq<nat>, p: nat)
    requires NoDup(out + (path + [p]))
    ensures NoDup(out + [p] + path)
  {
    var a, b := out + (path + [p]), out + [p] + path;
    forall i, j | 0 <= i < j < |b| ensures b[i] != b[j] {
      var i' := if i < |out| then i else if i == |out| then |a| - 1 else i - 1;
      var j' := if j < |out| then j else if j == |out| then |a| - 1 else j - 1;
      assert b[i] == a[i'] && b[j] == a[j'];
      assert i' < j' || j' < i';
    }
  }

  /** What the finished search delivers. */
  lemma DfsDone(g: Graph, root: nat, out: seq<nat>, mark: seq<bool>, next: seq<nat>)
    requires Dfs(g, root, out, [], mark, next)
    ensures Within(g, out) && NoDup(out) && Finished(g, out)
    ensures forall u: nat :: u in out <==> Reach(g, root, u)
  {
    assert out + [] == out;
    var s := ToSet(out);
    assert Closed(g, s) by {
      forall u: nat, v: nat | u in s && Edge(g, u, v) ensures v in s {
        var i :| 0 <= i < |g[u]| && g[u][i] == v;
        ReachStep(g, root, u, v);
        assert mark[v];
      }
    }
    forall u: nat | Reach(g, root, u) ensures u in out {
      ReachStays(g, s, root, u);
    }
  }

  /** Objects found so far never outnumber a list that holds all reachable ones. */
  lemma RoomLeft(g: Graph, root: nat, found: seq<nat>, all: seq<nat>)
    requires NoDup(found) && (forall u | u in found :: Reach(g, root, u))
    requires forall u: nat | Reach(g, root, u) :: u in all
    ensures |found| <= |all|
  {
    SetSize(found);
    SetSize(all);
    SubsetSize(ToSet(found), ToSet(all));
  }

  lemma DfsRoom(g: Graph, root: nat, out: seq<nat>, path: seq<nat>, mark: seq<bool>, next: seq<nat>, all: seq<nat>)
    requires Dfs(g, root, out, path, mark, next)
    requires forall u: nat | Reach(g, root, u) :: u in all
    ensures |out| + |path| <= |all|
  {
    RoomLeft(g, root, out + path, all);
  }

  /** p is an object whose dependencies from next[p] on are still to be looked at. */
  ghost predicate InTop(g: Graph, p: nat, mark: seq<bool>, next: seq<nat>) {
    p < |g| && |mark| == |g| && |next| == |g| && next[p] <= |g[p]| && Within(g, g[p])
  }

  lemma DfsTop(g: Graph, root: nat, out: seq<nat>, path: seq<nat>, mark: seq<bool>, next: seq<nat>)
    requires Dfs(g, root, out, path, mark, next) && path != []
    ensures InTop(g, path[|path| - 1], mark, next)
  {
    assert path[|path| - 1] in path;
  }
}
