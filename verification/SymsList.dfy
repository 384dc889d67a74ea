/** The list of libraries whose symbols are global, linked by syms_next and ended by syms_tail. */
module SymsList {

  type Dso = nat

  /** next is the syms_next field of libraries in which it is not 0. */
  ghost predicate Lists(next: map<Dso, Dso>, tail: Dso, s: seq<Dso>) {
    && |s| > 0 && s[|s| - 1] == tail
    && (forall i, j | 0 <= i < j < |s| :: s[i] != s[j])
    && (forall i | 0 <= i < |s| - 1 :: s[i] in next && next[s[i]] == s[i + 1])
    && (forall p | p in next :: p in s[..|s| - 1])
  }

  /** A library is on the list exactly when it has a successor or is the last one. */
  lemma OnListIff(next: map<Dso, Dso>, tail: Dso, s: seq<Dso>, p: Dso)
    requires Lists(next, tail, s)
    ensures p in s <==> p in next || p == tail
  {
    if p in s {
      var i :| 0 <= i < |s| && s[i] == p;
      assert i < |s| - 1 ==> s[i] in next;
    }
  }

  ghost function From(s: seq<Dso>, k: nat, i: nat): (r: set<Dso>)
    requires k <= i <= |s|
  {
    set j | k <= j < i :: s[j]
  }

  /** The links after those of places k to i - 1 have been cleared. */
  ghost function Cut(next: map<Dso, Dso>, s: seq<Dso>, k: nat, i: nat): (r: map<Dso, Dso>)
    requires k <= i <= |s|
  {
    next - From(s, k, i)
  }

  lemma Chopped(next: map<Dso, Dso>, tail: Dso, s: seq<Dso>, k: nat)
    requires Lists(next, tail, s) && k < |s|
    ensures Lists(Cut(next, s, k, |s| - 1), s[k], s[..k + 1])
  {
    var n, t := Cut(next, s, k, |s| - 1), s[..k + 1];
    forall i | 0 <= i < k ensures t[i] in n && n[t[i]] == t[i + 1] {
      assert s[i] in next && s[i] !in From(s, k, |s| - 1);
    }
    forall p | p in n ensures p in t[..|t| - 1] {
      var j :| 0 <= j < |s| - 1 && s[j] == p;
      assert j < k;
      assert t[..|t| - 1][j] == p;
    }
  }

  lemma NextOf(next: map<Dso, Dso>, tail: Dso, s: seq<Dso>, k: nat, i: nat)
    requires Lists(next, tail, s) && k <= i < |s|
    ensures var n := Cut(next, s, k, i);
            && (s[i] in n <==> i < |s| - 1)
            && (i < |s| - 1 ==> n[s[i]] == s[i + 1] && n - {s[i]} == Cut(next, s, k, i + 1))
  {
    assert s[i] !in From(s, k, i);
    if s[i] in next {
      var j :| 0 <= j < |s| - 1 && s[j] == s[i];
    }
    assert From(s, k, i + 1) == From(s, k, i) + {s[i]};
  }

  class Symbols {
    var next: map<Dso, Dso>
    var tail: Dso

    /** add_syms: p is appended unless it is on the list. */
    method Add(p: Dso, ghost s: seq<Dso>)
      requires Lists(next, tail, s)
      modifies this
      ensures Lists(next, tail, if p in s then s else s + [p])
    {
      OnListIff(next, tail, s, p);
      if p in next || tail == p {
        return;
      }
      next := next[tail := p];
      tail := p;
      ghost var t := s + [p];
      assert t[..|t| - 1] == s;
    }

    /** revert_syms: everything after the library that was last before is taken off again. */
    method Revert(oldTail: Dso, ghost s: seq<Dso>, ghost k: nat)
      requires Lists(next, tail, s) && k < |s| && s[k] == oldTail
      modifies this
      ensures Lists(next, tail, s[..k + 1])
    {
      hide Lists, Cut;
      var q := oldTail;
      ghost var i, was := k, next;
      Chopped(was, tail, s, k);
      NothingCut(was, s, k);
      NextOf(was, tail, s, k, k);
      while q in next
        invariant k <= i < |s| && q == s[i] && next == Cut(was, s, k, i) && tail == old(tail)
        invariant q in next <==> i < |s| - 1
        decreases |s| - i
      {
        NextOf(was, tail, s, k, i);
        NextOf(was, tail, s, k, i + 1);
        var n := next[q];
        next := next - {q};
        q, i := n, i + 1;
      }
      tail := oldTail;
    }
  }

  lemma NothingCut(next: map<Dso, Dso>, s: seq<Dso>, k: nat)
    requires k <= |s|
    ensures Cut(next, s, k, k) == next
  {
    assert From(s, k, k) == {};
  }
}
