// The merge sort of deque.c as it runs: it splices the next and prev pointers of a chain that has
// been taken off its two sentinels. Every method is proved to bring about, by pointers, the order
// that the functions of DequeNode give for the sequence of nodes.

module DequeSort {
  import opened DequeNode

  ghost function Nodes(s: seq<Node>): set<Node> {
    set x | x in s
  }

  function Head(s: seq<Node>): Node? {
    if s == [] then null else s[0]
  }

  function After(s: seq<Node>, i: nat): Node? {
    if i + 1 < |s| then s[i + 1] else null
  }

  function Before(s: seq<Node>, i: nat): Node?
    requires i < |s|
  {
    if i > 0 then s[i - 1] else null
  }

  /** Each node's next is the node after it, and the last one has none. */
  ghost predicate NextLinked(s: seq<Node>)
    reads Nodes(s)
  {
    forall i :: 0 <= i < |s| ==> s[i].next == After(s, i)
  }

  /** Each node's prev is the node before it, and the first one has none. */
  ghost predicate PrevLinked(s: seq<Node>)
    reads Nodes(s)
  {
    forall i :: 0 <= i < |s| ==> s[i].prev == Before(s, i)
  }

  /** A chain of nodes by itself. */
  ghost predicate Chain(n: Node?, s: seq<Node>)
    reads Nodes(s)
  {
    n == Head(s) && NextLinked(s) && PrevLinked(s)
  }

  /** What is left of a chain whose first nodes have been taken away. */
  ghost predicate Rest(n: Node?, s: seq<Node>)
    reads Nodes(s)
  {
    && n == Head(s) && NextLinked(s)
    && forall i :: 0 < i < |s| ==> s[i].prev == Before(s, i)
  }

  /** The chain of the merged nodes so far: its first and its last node. */
  ghost predicate Done(start: Node?, node: Node?, s: seq<Node>)
    reads Nodes(s)
  {
    && start == Head(s) && node == (if s == [] then null else s[|s| - 1])
    && NextLinked(s) && PrevLinked(s)
  }

  ghost predicate Distinct(s: seq<Node>) {
    forall i, j :: 0 <= i < j < |s| ==> s[i] != s[j]
  }

  lemma NodesAppend(a: seq<Node>, b: seq<Node>)
    ensures Nodes(a + b) == Nodes(a) + Nodes(b)
  {
  }

  lemma NodesOne(x: Node)
    ensures Nodes([x]) == {x}
  {
  }

  lemma NodesFirst(s: seq<Node>)
    requires s != []
    ensures Nodes(s) == {s[0]} + Nodes(s[1..])
  {
    assert s == [s[0]] + s[1..];
    NodesAppend([s[0]], s[1..]);
    NodesOne(s[0]);
  }

  /** Following next never comes back to a node. */
  lemma {:induction false} NextDistinct(s: seq<Node>, i: nat, j: nat)
    requires NextLinked(s) && i < j < |s|
    ensures s[i] != s[j]
    decreases |s| - j
  {
    if j < |s| - 1 {
      NextDistinct(s, i + 1, j + 1);
    }
  }

  lemma LinkedDistinct(s: seq<Node>)
    requires NextLinked(s)
    ensures Distinct(s)
  {
    forall i, j | 0 <= i < j < |s| ensures s[i] != s[j] { NextDistinct(s, i, j); }
  }

  lemma RestTail(s: seq<Node>)
    requires s != [] && Rest(s[0], s)
    ensures Rest(s[0].next, s[1..]) && s[0] !in Nodes(s[1..])
  {
    LinkedDistinct(s);
    assert s[0].next == After(s, 0);
    forall i | 0 <= i < |s| - 1
      ensures s[1..][i].next == After(s[1..], i) && (i > 0 ==> s[1..][i].prev == Before(s[1..], i))
    {
      assert s[1..][i] == s[i + 1];
    }
  }

  lemma LastOnce(s: seq<Node>)
    requires NextLinked(s) && s != []
    ensures s[|s| - 1] !in Nodes(s[..|s| - 1])
  {
    LinkedDistinct(s);
  }

  /** `get_middle`: the fast pointer moves two nodes while the slow one moves one. */
  method GetMiddle(node: Node, ghost s: seq<Node>) returns (slow: Node)
    requires node == Head(s) && NextLinked(s)
    ensures slow == s[|s| / 2]
  {
    slow := node;
    var fast: Node? := node;
    ghost var i := 0;
    while fast != null && fast.next != null
      invariant 0 <= 2 * i <= |s| && i < |s| && slow == s[i]
      invariant fast == if 2 * i < |s| then s[2 * i] else null
      decreases |s| - i
    {
      assert fast.next == s[2 * i + 1];
      slow := slow.next;
      fast := fast.next.next;
      i := i + 1;
    }
  }

  /** `node->next = x; x->prev = node`, where `x` heads the rest of a chain: the two become one. */
  method Attach(start: Node, node: Node, x: Node, ghost done: seq<Node>, ghost ls: seq<Node>)
    requires Done(start, node, done) && Rest(x, ls) && Nodes(done) !! Nodes(ls)
    modifies node, x
    ensures Chain(start, done + ls)
    ensures x.next == old(x.next)
  {
    RestTail(ls);
    LastOnce(done);
    ghost var all, d := done + ls, |done|;
    assert node in Nodes(done) && x in Nodes(ls);
    label before:
    node.next := x;
    x.prev := node;
    forall i | 0 <= i < |all|
      ensures all[i].next == After(all, i) && all[i].prev == Before(all, i)
    {
      if i < d - 1 {
        assert all[i] == done[..d - 1][i] && all[i] in Nodes(done);
      } else if i == d - 1 {
        assert all[i] == node;
      } else if i == d {
        assert all[i] == x == ls[0];
        assert old@before(x.next) == After(ls, 0);
      } else {
        assert all[i] == ls[1..][i - d - 1] && all[i] in Nodes(ls);
        assert all[i] == ls[i - d];
      }
    }
  }

  /** The same assignments where they change nothing. */
  method AttachAgain(start: Node, node: Node, x: Node, ghost all: seq<Node>, ghost i: nat)
    requires Chain(start, all) && i + 1 < |all| && node == all[i] && x == all[i + 1]
    modifies node, x
    ensures Chain(start, all)
  {
    LinkedDistinct(all);
    assert node.next == After(all, i) == x && x.prev == Before(all, i + 1) == node;
    assert x.next == After(all, i + 1);
    node.next := x;
    x.prev := node;
  }

  /** One turn of the first loop of `deque_merge`: the head of one chain goes behind the last of the
      merged nodes. Nothing happens to what is left of either chain. */
  method Take(start: Node?, node: Node?, x: Node, ghost done: seq<Node>, ghost ls: seq<Node>, ghost rs: seq<Node>)
      returns (next: Node?, first: Node)
    requires Done(start, node, done) && Rest(x, ls) && Rest(Head(rs), rs)
    requires Nodes(done) !! Nodes(ls) !! Nodes(rs)
    modifies Nodes(done) + Nodes(ls)
    ensures Done(first, x, done + [x]) && Rest(next, ls[1..]) && Rest(Head(rs), rs)
    ensures Nodes(done + [x]) == Nodes(done) + {x} && Nodes(ls) == {x} + Nodes(ls[1..])
    ensures Nodes(done + [x]) !! Nodes(ls[1..]) !! Nodes(rs)
  {
    RestTail(ls);
    NodesFirst(ls);
    NodesOne(x);
    NodesAppend(done, [x]);
    hide Nodes;
    LastIn(start, node, done);
    next := x.next;
    x.next := null;
    if node == null {
      x.prev := null;
      first := x;
    } else {
      Attach(start, node, x, done, [x]);
      first := start;
    }
  }

  lemma LastIn(start: Node?, node: Node?, done: seq<Node>)
    requires Done(start, node, done)
    ensures node != null ==> node in Nodes(done)
    ensures start == null <==> node == null
  {
  }

  /** The last loops of `deque_merge`: the rest of one chain behind the merged nodes. */
  method LinkRest(start: Node, last: Node, rest: Node?, ghost done: seq<Node>, ghost ls: seq<Node>)
    requires Done(start, last, done) && Rest(rest, ls) && Nodes(done) !! Nodes(ls)
    modifies Nodes(done) + Nodes(ls)
    ensures Chain(start, done + ls)
  {
    var node, left := last, rest;
    if left == null {
      return;
    }
    ghost var k, d, all := 1, |done|, done + ls;
    NodesAppend(done, ls);
    assert left in Nodes(ls) && node in Nodes(done);
    var next := left.next;
    Attach(start, node, left, done, ls);
    assert all[d] == left;
    left, node := next, left;
    while left != null
      invariant 1 <= k <= |ls| && Chain(start, all)
      invariant node == all[d + k - 1] && left == After(all, d + k - 1)
      decreases |ls| - k
    {
      assert left.next == After(all, d + k);
      assert left in Nodes(all) && node in Nodes(all);
      next := left.next;
      AttachAgain(start, node, left, all, d + k - 1);
      left, node := next, left;
      k := k + 1;
    }
  }

  lemma MergedStep(done: seq<Node>, ls: seq<Node>, rs: seq<Node>)
    requires ls != [] && rs != []
    ensures done + Merged(ls, rs) ==
            if TagLe(ls[0].tag, rs[0].tag) then done + [ls[0]] + Merged(ls[1..], rs)
            else done + [rs[0]] + Merged(ls, rs[1..])
  {
    hide TagLe;
  }

  lemma MergeStarts(node1: Node?, node2: Node?, a: seq<Node>, b: seq<Node>)
    requires Chain(node1, a) && Chain(node2, b)
    ensures Rest(node1, a) && Rest(node2, b) && Done(null, null, []) && Nodes([]) == {}
    ensures (node1 == null <==> a == []) && (node2 == null <==> b == [])
    ensures [] + Merged(a, b) == Merged(a, b)
  {
  }

  lemma MergedEnds(a: seq<Node>, b: seq<Node>)
    ensures b == [] ==> Merged(a, b) == a
    ensures a == [] ==> Merged(a, b) == b
  {
  }

  lemma RestHead(n: Node?, s: seq<Node>)
    requires Rest(n, s)
    ensures n == Head(s) && (n == null <==> s == [])
  {
  }

  /** `deque_merge` */
  method Merge(node1: Node?, node2: Node?, ghost a: seq<Node>, ghost b: seq<Node>) returns (start: Node?)
    requires Chain(node1, a) && Chain(node2, b) && Nodes(a) !! Nodes(b)
    modifies Nodes(a) + Nodes(b)
    ensures Chain(start, Merged(a, b))
  {
    hide TagCompare;
    hide Chain;
    hide Done;
    hide Rest;
    hide Merged;
    hide Nodes;
    MergeStarts(node1, node2, a, b);
    MergedEnds(a, b);
    start := null;
    if node1 == null {
      return node2;
    }
    if node2 == null {
      return node1;
    }
    var node: Node? := null;
    var left, right := node1, node2;
    ghost var done: seq<Node>, ls, rs := [], a, b;
    while left != null && right != null
      invariant Rest(left, ls) && Rest(right, rs) && Done(start, node, done)
      invariant node != null || (left != null && right != null)
      invariant left != null || right != null
      invariant Nodes(done) !! Nodes(ls) !! Nodes(rs)
      invariant Nodes(done) + Nodes(ls) + Nodes(rs) == Nodes(a) + Nodes(b)
      invariant done + Merged(ls, rs) == Merged(a, b)
      decreases |ls| + |rs|
    {
      RestHead(left, ls);
      RestHead(right, rs);
      MergedStep(done, ls, rs);
      if TagCompare(left.tag, right.tag) <= 0 {
        var next;
        next, start := Take(start, node, left, done, ls, rs);
        done, ls := done + [left], ls[1..];
        node, left := left, next;
      } else {
        var next;
        next, start := Take(start, node, right, done, rs, ls);
        done, rs := done + [right], rs[1..];
        node, right := right, next;
      }
    }
    RestHead(left, ls);
    RestHead(right, rs);
    LastIn(start, node, done);
    MergedEnds(ls, rs);
    if left != null {
      LinkRest(start, node, left, done, ls);
    } else {
      LinkRest(start, node, right, done, rs);
    }
  }

  lemma SortingNodes(s: seq<Node>)
    ensures Nodes(Sorting(s)) == Nodes(s)
  {
    SortingPermutes(s);
    hide Sorting;
    SameNodes(Sorting(s), s);
  }

  lemma SameNodes(s: seq<Node>, t: seq<Node>)
    requires multiset(s) == multiset(t)
    ensures Nodes(s) == Nodes(t)
  {
    assert forall x :: x in Nodes(s) ==> x in multiset(s);
    assert forall x :: x in Nodes(t) ==> x in multiset(t);
  }

  /** Cutting a chain before position `h`. */
  method Cut(mid: Node, ghost s: seq<Node>, ghost h: nat)
    requires NextLinked(s) && PrevLinked(s) && 0 < h < |s| && mid == s[h]
    modifies Nodes(s)
    ensures Chain(s[0], s[..h]) && Chain(mid, s[h..])
    ensures Nodes(s[..h]) !! Nodes(s[h..]) && Nodes(s) == Nodes(s[..h]) + Nodes(s[h..])
  {
    ghost var a, b := s[..h], s[h..];
    Halves(s, h);
    var prevmid := mid.prev;
    label before:
    mid.prev := null;
    prevmid.next := null;
    forall i | 0 <= i < |a| ensures a[i].next == After(a, i) && a[i].prev == Before(a, i) {
      assert a[i] in Nodes(a) && old@before(a[i].next) == After(s, i) && old@before(a[i].prev) == Before(s, i);
    }
    forall i | 0 <= i < |b| ensures b[i].next == After(b, i) && b[i].prev == Before(b, i) {
      assert b[i] in Nodes(b) && old@before(b[i].next) == After(s, h + i) && old@before(b[i].prev) == Before(s, h + i);
    }
  }

  lemma Halves(s: seq<Node>, h: nat)
    requires NextLinked(s) && PrevLinked(s) && 0 < h < |s|
    ensures Distinct(s)
    ensures Nodes(s[..h]) !! Nodes(s[h..]) && Nodes(s) == Nodes(s[..h]) + Nodes(s[h..])
    ensures s[h].prev == s[h - 1] && s[h - 1] in Nodes(s[..h]) && s[h] in Nodes(s[h..])
    ensures s[h - 1] == s[..h][h - 1] && s[h] == s[h..][0]
  {
    LinkedDistinct(s);
    assert s == s[..h] + s[h..];
    NodesAppend(s[..h], s[h..]);
    assert s[h].prev == Before(s, h);
    assert s[h - 1] == s[..h][h - 1] && s[h] == s[h..][0];
  }

  lemma SortingStep(s: seq<Node>)
    ensures |s| <= 1 ==> Sorting(s) == s
    ensures |s| > 1 ==> Sorting(s) == Merged(Sorting(s[..|s| / 2]), Sorting(s[|s| / 2..]))
  {
  }

  lemma ChainEnds(n: Node?, s: seq<Node>)
    requires Chain(n, s)
    ensures n == null <==> s == []
    ensures n != null ==> n == s[0] && (n.next == null <==> |s| == 1)
    ensures n == Head(s) && NextLinked(s) && PrevLinked(s)
  {
    if n != null {
      assert n.next == After(s, 0);
    }
  }

  /** `deque_sort`. The middle is never the first of several nodes, so both halves are shorter. */
  method Sort(node: Node?, ghost s: seq<Node>) returns (start: Node?)
    requires Chain(node, s)
    modifies Nodes(s)
    ensures Chain(start, Sorting(s))
    decreases |s|
  {
    hide Sorting;
    hide Merged;
    hide After;
    hide Before;
    hide Head;
    SortingStep(s);
    ChainEnds(node, s);
    if node == null || node.next == null {
      return node;
    }
    var mid := GetMiddle(node, s);
    ghost var h := |s| / 2;
    ghost var a, b := s[..h], s[h..];
    Cut(mid, s, h);
    SortingNodes(a);
    SortingNodes(b);
    var node1 := Sort(node, a);
    var node2 := Sort(mid, b);
    start := Merge(node1, node2, Sorting(a), Sorting(b));
  }
}
