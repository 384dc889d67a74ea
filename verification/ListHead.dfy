/** Circular doubly linked lists: the pointer operations against the sequences they stand for.  A
    ring is written from its head on; the head is not an element. */
module ListHead {
  import opened Basics

  class Node {
    var next: Node
    var prev: Node

    /** INIT_LIST_HEAD of a new node */
    constructor ()
      ensures Ring([this])
    {
      next, prev := this, this;
    }
  }

  ghost predicate Linked(a: Node, b: Node)
    reads a, b
  {
    a.next == b && b.prev == a
  }

  /** Neighbours in c are linked. */
  ghost predicate Chain(c: seq<Node>)
    reads c
  {
    NoDup(c) && forall i | 0 <= i < |c| - 1 :: Linked(c[i], c[i + 1])
  }

  /** Following next from c[0] passes c in order and comes back, and prev goes the other way. */
  ghost predicate Ring(c: seq<Node>)
    reads c
  {
    |c| > 0 && Chain(c) && Linked(c[|c| - 1], c[0])
  }

  ghost predicate Apart(c: seq<Node>, d: seq<Node>) {
    forall n | n in c :: n !in d
  }

  /** The node after place i. */
  ghost function Succ(c: seq<Node>, i: nat): (n: Node)
    requires i < |c|
  {
    if i + 1 < |c| then c[i + 1] else c[0]
  }

  /** INIT_LIST_HEAD */
  method Init(n: Node)
    modifies n
    ensures Ring([n])
  {
    n.next := n;
    n.prev := n;
  }

  lemma InsertedAt(c: seq<Node>, n: Node, i: nat)
    requires i < |c| && NoDup(c) && n !in c
    ensures var d := c[..i + 1] + [n] + c[i + 1..];
            && NoDup(d) && |d| == |c| + 1
            && forall k | 0 <= k < |d| :: d[k] == if k <= i then c[k] else if k == i + 1 then n else c[k - 1]
  {
    var d := c[..i + 1] + [n] + c[i + 1..];
    assert forall k | 0 <= k < |d| :: d[k] == if k <= i then c[k] else if k == i + 1 then n else c[k - 1];
  }

  /** __list_add: n goes between places i and i + 1. */
  method Insert(n: Node, prev: Node, next: Node, ghost c: seq<Node>, ghost i: nat)
    requires Ring(c) && n !in c && i < |c| && prev == c[i] && next == Succ(c, i)
    modifies n, prev, next
    ensures Ring(c[..i + 1] + [n] + c[i + 1..])
  {
    next.prev := n;
    n.next := next;
    n.prev := prev;
    prev.next := n;
    InsertedAt(c, n, i);
  }

  /** list_add: at the head. */
  method Add(n: Node, head: Node, ghost s: seq<Node>)
    requires Ring([head] + s) && n !in [head] + s
    modifies n, head, head.next
    ensures Ring([head, n] + s)
  {
    ghost var c := [head] + s;
    Insert(n, head, head.next, c, 0);
    assert c[..1] + [n] + c[1..] == [head, n] + s;
  }

  /** list_add_tail */
  method AddTail(n: Node, head: Node, ghost s: seq<Node>)
    requires Ring([head] + s) && n !in [head] + s
    modifies n, head, head.prev
    ensures Ring([head] + s + [n])
  {
    ghost var c := [head] + s;
    Insert(n, head.prev, head, c, |c| - 1);
    assert c[..|c|] + [n] + c[|c|..] == [head] + s + [n];
  }

  /** __list_del_entry, for the element at place i > 0. */
  method Unlink(e: Node, ghost c: seq<Node>, ghost i: nat)
    requires Ring(c) && 0 < i < |c| && e == c[i]
    modifies e.prev, e.next
    ensures Ring(c[..i] + c[i + 1..])
    ensures e.prev == old(e.prev) && e.next == old(e.next)
  {
    var prev, next := e.prev, e.next;
    assert prev == c[i - 1] && next == Succ(c, i);
    next.prev := prev;
    prev.next := next;
    ghost var d := c[..i] + c[i + 1..];
    assert forall k | 0 <= k < |d| :: d[k] == if k < i then c[k] else c[k + 1];
  }

  /** list_del_init: the element becomes a ring of its own. */
  method DelInit(e: Node, ghost c: seq<Node>, ghost i: nat)
    requires Ring(c) && 0 < i < |c| && e == c[i]
    modifies e, e.prev, e.next
    ensures Ring(c[..i] + c[i + 1..]) && Ring([e])
  {
    Unlink(e, c, i);
    ghost var d := c[..i] + c[i + 1..];
    assert e !in d;
    Init(e);
  }

  /** list_move_tail, to another list. */
  method MoveTail(e: Node, head: Node, ghost c: seq<Node>, ghost i: nat, ghost s: seq<Node>)
    requires Ring(c) && 0 < i < |c| && e == c[i] && Ring([head] + s) && Apart(c, [head] + s)
    modifies e, e.prev, e.next, head, head.prev
    ensures Ring(c[..i] + c[i + 1..]) && Ring([head] + s + [e])
  {
    ghost var t := [head] + s;
    assert c[i - 1] in c && Succ(c, i) in c;
    assert head in t && t[|t| - 1] in t && head.prev == t[|t| - 1];
    Unlink(e, c, i);
    ghost var d := c[..i] + c[i + 1..];
    assert e in c && e !in d && forall n | n in d :: n in c;
    AddTail(e, head, s);
  }

  /** list_for_each: the elements, first to last. */
  method Elements(head: Node, ghost s: seq<Node>) returns (r: seq<Node>)
    requires Ring([head] + s)
    ensures r == s
  {
    ghost var c := [head] + s;
    r := [];
    var pos := head.next;
    while pos != head
      invariant |r| <= |s| && r == s[..|r|] && pos == Succ(c, |r|)
      decreases |s| - |r|
    {
      assert pos == c[|r| + 1];
      r := r + [pos];
      pos := pos.next;
    }
    assert |r| == |s|;
  }

  /** list_empty */
  method Empty(head: Node, ghost s: seq<Node>) returns (b: bool)
    requires Ring([head] + s)
    ensures b <==> s == []
  {
    ghost var c := [head] + s;
    assert head.next == Succ(c, 0);
    b := head.next == head;
  }
}
