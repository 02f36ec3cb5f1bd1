// The deque of deque.c: a doubly linked list between two sentinels. The ghost field `nodes` is the
// sequence that the list stands for; every operation is an operation on that sequence. The locks are
// the subject of DequeLock.

module Deque {
  import opened Bytes
  import opened Collections
  import opened Values
  import opened DequeNode
  import opened DequeSort
  import opened DequeList

  function Keep(x: Node, t: Tag): seq<Node> {
    if x.tag == t then [] else [x]
  }

  /** The nodes that do not have a tag, in order. */
  function Without(s: seq<Node>, t: Tag): (r: seq<Node>)
    ensures |r| <= |s|
  {
    if s == [] then []
    else Without(s[..|s| - 1], t) + Keep(s[|s| - 1], t)
  }

  /** The first node with a tag. */
  function FirstWith(s: seq<Node>, t: Tag): Node? {
    if s == [] then null else if s[0].tag == t then s[0] else FirstWith(s[1..], t)
  }

  predicate IsFirst(s: seq<Node>, i: nat, t: Tag)
    requires i < |s|
  {
    s[i].tag == t && forall k :: 0 <= k < i ==> s[k].tag != t
  }

  ghost predicate Tagged(s: seq<Node>) {
    forall i :: 0 <= i < |s| ==> s[i].tag != Some([])
  }

  function Whole(start: Node, ns: seq<Node>, end: Node): seq<Node> {
    [start] + ns + [end]
  }

  lemma WholeAt(start: Node, ns: seq<Node>, end: Node, i: nat)
    requires i <= |ns|
    ensures var all := Whole(start, ns, end);
            && |all| == |ns| + 2 && all[0] == start && all[|ns| + 1] == end
            && (i < |ns| ==> all[i + 1] == ns[i]) && (i > 0 ==> all[i] == ns[i - 1])
            && all[i] in Nodes(all) && all[i + 1] in Nodes(all)
            && all == all[..i] + [all[i]] + ([all[i + 1]] + all[i + 2..])
  {
  }

  /** What is on both sides of a node, and what is left without it. */
  lemma Around(start: Node, ns: seq<Node>, end: Node, i: nat)
    requires i < |ns|
    ensures var all := Whole(start, ns, end);
            var p, s := all[..i], all[i + 3..];
            && all == p + [all[i]] + [ns[i]] + ([all[i + 2]] + s)
            && Whole(start, RemoveAt(ns, i), end) == p + [all[i]] + ([all[i + 2]] + s)
            && Whole(start, RemoveAt(ns, i), end)[i] == all[i]
  {
    var all := Whole(start, ns, end);
    assert all[i + 1] == ns[i];
  }

  lemma AroundNodes(start: Node, ns: seq<Node>, end: Node, i: nat)
    requires i < |ns|
    ensures Nodes(Whole(start, RemoveAt(ns, i), end)) <= Nodes(Whole(start, ns, end))
    ensures Tagged(ns) ==> Tagged(RemoveAt(ns, i))
    ensures |RemoveAt(ns, i)| == |ns| - 1
  {
    assert forall x :: x in RemoveAt(ns, i) ==> x in ns;
  }

  lemma Appended(start: Node, ns: seq<Node>, n: Node, end: Node)
    ensures Whole(start, ns, end) == Whole(start, ns, end)[..|ns|] + [Whole(start, ns, end)[|ns|]] + [end]
    ensures Whole(start, ns + [n], end) == Whole(start, ns, end)[..|ns|] + [Whole(start, ns, end)[|ns|]] + [n] + [end]
    ensures Nodes(Whole(start, ns + [n], end)) == Nodes(Whole(start, ns, end)) + {n}
    ensures Tagged(ns) && n.tag != Some([]) ==> Tagged(ns + [n])
  {
    NodesAppend([start] + ns, [end]);
    NodesAppend([start] + ns, [n]);
    NodesAppend([start] + ns + [n], [end]);
    NodesOne(n);
    assert Whole(start, ns + [n], end) == [start] + ns + [n] + [end];
  }

  lemma WholeNodes(start: Node, ns: seq<Node>, end: Node)
    ensures Nodes(Whole(start, ns, end)) == {start, end} + Nodes(ns)
  {
    NodesAppend([start], ns);
    NodesAppend([start] + ns, [end]);
    NodesOne(start);
    NodesOne(end);
  }

  /** The nodes between two sentinels are a list when they are a piece and the sentinels point to its
      ends. */
  lemma Enclosed(start: Node, ns: seq<Node>, end: Node)
    requires ns != []
    ensures Piece(null, Whole(start, ns, end), null) <==>
            && start.prev == null && start.next == ns[0] && Piece(start, ns, end)
            && end.prev == ns[|ns| - 1] && end.next == null
  {
    hide Piece;
    Pieces(null, [start] + ns, [end], null);
    Pieces(null, [start], ns, end);
    OnePiece(null, start, ns[0]);
    OnePiece(ns[|ns| - 1], end, null);
    assert ([start] + ns)[|ns|] == ns[|ns| - 1];
  }

  lemma EnclosedApart(start: Node, ns: seq<Node>, end: Node)
    requires Piece(null, Whole(start, ns, end), null)
    ensures start !in Nodes(ns) && end !in Nodes(ns) && start != end
  {
    hide Piece;
    PieceDistinct([start] + ns, [end]);
    assert [start] + ns + [end] == [start] + (ns + [end]);
    PieceDistinct([start], ns + [end]);
    NodesAppend([start], ns);
    NodesAppend(ns, [end]);
    NodesOne(start);
    NodesOne(end);
  }

  lemma EnclosedDistinct(start: Node, ns: seq<Node>, end: Node)
    requires NextLinked(Whole(start, ns, end))
    ensures Distinct(ns)
  {
    LinkedDistinct(Whole(start, ns, end));
    assert forall i :: 0 <= i < |ns| ==> ns[i] == Whole(start, ns, end)[i + 1];
  }

  /** Breaks the connection of the nodes to the sentinels. */
  method Detach(start: Node, end: Node, ghost ns: seq<Node>) returns (first: Node)
    requires ns != [] && Piece(null, Whole(start, ns, end), null)
    modifies start, end, Nodes(ns)
    ensures Chain(first, ns) && start != end && start !in Nodes(ns) && end !in Nodes(ns)
    ensures start.prev == null && end.next == null
  {
    Enclosed(start, ns, end);
    EnclosedApart(start, ns, end);
    WholeIsPiece(Whole(start, ns, end));
    EnclosedDistinct(start, ns, end);
    assert ns[0] in Nodes(ns) && ns[|ns| - 1] in Nodes(ns);
    first := start.next;
    var last := end.prev;
    label before:
    first.prev := null;
    last.next := null;
    start.next := null;
    end.prev := null;
    forall i | 0 <= i < |ns| ensures ns[i].next == After(ns, i) && ns[i].prev == Before(ns, i) {
      assert ns[i] in Nodes(ns);
      assert old@before(ns[i].next) == NextIn(ns, i, end) && old@before(ns[i].prev) == PrevIn(start, ns, i);
    }
  }

  /** The loop of `pgvictoria_deque_sort` to the end of the chain. */
  method LastOf(first: Node, ghost ns: seq<Node>) returns (node: Node)
    requires NextLinked(ns) && first == Head(ns)
    ensures node == ns[|ns| - 1]
  {
    node := first;
    ghost var k := 0;
    while node.next != null
      invariant 0 <= k < |ns| && node == ns[k]
      decreases |ns| - k
    {
      assert node.next == After(ns, k);
      node := node.next;
      k := k + 1;
    }
    assert node.next == After(ns, k);
  }

  /** Puts a chain between the sentinels. */
  method Reattach(start: Node, end: Node, first: Node?, ghost ns: seq<Node>)
    requires ns != [] && Chain(first, ns) && start != end && start !in Nodes(ns) && end !in Nodes(ns)
    requires start.prev == null && end.next == null
    modifies start, end, Nodes(ns)
    ensures Piece(null, Whole(start, ns, end), null)
  {
    LinkedDistinct(ns);
    assert ns[0] in Nodes(ns) && ns[|ns| - 1] in Nodes(ns);
    label before:
    start.next := first;
    first.prev := start;
    forall i | 0 <= i < |ns| ensures ns[i].next == After(ns, i) && ns[i].prev == PrevIn(start, ns, i) {
      assert ns[i] in Nodes(ns);
      assert old@before(ns[i].next) == After(ns, i) && old@before(ns[i].prev) == Before(ns, i);
    }
    AttachEnd(start, end, first, ns);
  }

  method AttachEnd(start: Node, end: Node, first: Node, ghost ns: seq<Node>)
    requires ns != [] && first == ns[0] && start != end && start !in Nodes(ns) && end !in Nodes(ns)
    requires forall i :: 0 <= i < |ns| ==> ns[i].next == After(ns, i) && ns[i].prev == PrevIn(start, ns, i)
    requires start.prev == null && start.next == first && end.next == null
    modifies end, Nodes(ns)
    ensures Piece(null, Whole(start, ns, end), null)
  {
    assert ns[0] in Nodes(ns) && ns[|ns| - 1] in Nodes(ns);
    var node := LastOf(first, ns);
    LinkedDistinct(ns);
    label before:
    end.prev := node;
    node.next := end;
    forall i | 0 <= i < |ns| ensures ns[i].next == NextIn(ns, i, end) && ns[i].prev == PrevIn(start, ns, i) {
      assert ns[i] in Nodes(ns);
      assert old@before(ns[i].next) == After(ns, i) && old@before(ns[i].prev) == PrevIn(start, ns, i);
    }
    Enclosed(start, ns, end);
  }

  class Deque {
    var size: nat
    const start: Node
    const end: Node
    ghost var nodes: seq<Node>

    ghost function All(): seq<Node>
      reads this
    {
      Whole(start, nodes, end)
    }

    ghost predicate Valid()
      reads this, Nodes(All())
    {
      && Piece(null, All(), null)
      && size == |nodes|
      && Tagged(nodes)
    }

    /** `pgvictoria_deque_create` */
    constructor ()
      ensures Valid() && nodes == []
      ensures fresh(this) && fresh(Nodes(All()))
    {
      size := 0;
      var s := new Node(None, Value(0, 0));
      var e := new Node(None, Value(0, 0));
      start, end, nodes := s, e, [];
      new;
      start.next := end;
      end.prev := start;
      assert All() == [start, end];
    }

    /** The neighbours of a place in the list. */
    lemma At(i: nat)
      requires Valid() && i <= |nodes|
      ensures |All()| == |nodes| + 2 && All()[0] == start && All()[|nodes| + 1] == end
      ensures (i < |nodes| ==> All()[i + 1] == nodes[i]) && (i > 0 ==> All()[i] == nodes[i - 1])
      ensures All()[i].next == All()[i + 1] && All()[i + 1].prev == All()[i]
      ensures All()[i] in Nodes(All()) && All()[i + 1] in Nodes(All())
      ensures start in Nodes(All()) && end in Nodes(All())
      ensures All()[i + 1] == end <==> i == |nodes|
      ensures (All()[i] == start <==> i == 0) && All()[i] != end
    {
      hide Piece;
      hide Nodes;
      WholeAt(start, nodes, end, i);
      WholeAt(start, nodes, end, 0);
      WholeAt(start, nodes, end, |nodes|);
      PieceEnds(All()[..i], All()[i], All()[i + 1], All()[i + 2..]);
      WholeIsPiece(All());
      LinkedDistinct(All());
    }

    /** `deque_offer`: a value without a type is not added. */
    method Offer(tag: Tag, data: Value)
      requires Valid()
      modifies this, Nodes(All())
      ensures Valid() && fresh(Nodes(All()) - old(Nodes(All())))
      ensures data.vtype == 0 ==> nodes == old(nodes)
      ensures data.vtype != 0 ==>
                && |nodes| == old(|nodes|) + 1 && nodes[..old(|nodes|)] == old(nodes)
                && nodes[|nodes| - 1].tag == StoredTag(tag) && nodes[|nodes| - 1].data == data
    {
      hide Piece;
      hide Whole;
      if data.vtype == VALUE_NONE {
        return;
      }
      At(|nodes|);
      ghost var all := All();
      ghost var members := Nodes(all);
      var n := new Node(tag, data);
      Appended(start, nodes, n, end);
      var last := end.prev;
      assert last == all[|nodes|] && n !in members;
      assert Piece(null, all, null);
      Insert(last, n, end, all[..|nodes|]);
      nodes, size := nodes + [n], size + 1;
    }

    /** `deque_remove`: takes out a node; the result is the node before it. */
    method Remove(node: Node, ghost i: nat) returns (prev: Node)
      requires Valid() && i < |nodes| && node == nodes[i]
      modifies this, Nodes(All())
      ensures Valid() && nodes == RemoveAt(old(nodes), i) && Nodes(All()) <= old(Nodes(All()))
      ensures prev == All()[i] == old(All()[i])
    {
      hide RemoveAt;
      hide Piece;
      hide Whole;
      At(i);
      At(i + 1);
      Around(start, nodes, end, i);
      AroundNodes(start, nodes, end, i);
      prev := node.prev;
      var next := node.next;
      Splice(prev, next, All()[..i], node, All()[i + 3..]);
      nodes, size := RemoveAt(nodes, i), size - 1;
    }

    /** `pgvictoria_deque_poll`: the first value and its tag, or 0. */
    method Poll() returns (data: nat, tag: Tag)
      requires Valid()
      modifies this, Nodes(All())
      ensures Valid() && Nodes(All()) <= old(Nodes(All()))
      ensures old(nodes) == [] ==> nodes == [] && data == 0 && tag == None
      ensures old(nodes) != [] ==> nodes == old(nodes[1..]) && (data, tag) == (old(nodes[0]).data.data, old(nodes[0]).tag)
    {
      hide Piece;
      hide Whole;
      if size == 0 {
        return 0, None;
      }
      At(0);
      var head := start.next;
      var prev := Remove(head, 0);
      return head.data.data, head.tag;
    }

    /** `pgvictoria_deque_poll_last` */
    method PollLast() returns (data: nat, tag: Tag)
      requires Valid()
      modifies this, Nodes(All())
      ensures Valid() && Nodes(All()) <= old(Nodes(All()))
      ensures old(nodes) == [] ==> nodes == [] && data == 0 && tag == None
      ensures old(nodes) != [] ==>
                var k := |old(nodes)| - 1;
                nodes == old(nodes)[..k] && (data, tag) == (old(nodes)[k].data.data, old(nodes)[k].tag)
    {
      hide Piece;
      hide Whole;
      if size == 0 {
        return 0, None;
      }
      At(|nodes|);
      var tail := end.prev;
      var prev := Remove(tail, |nodes| - 1);
      return tail.data.data, tail.tag;
    }

    /** `deque_next`: the node after the one at position `i` of the whole list, if there is one. */
    method Next(node: Node?, ghost i: nat) returns (next: Node?)
      requires Valid() && i <= |nodes| && (node == null || node == All()[i])
      ensures next == if node != null && i < |nodes| then nodes[i] else null
    {
      hide Piece;
      hide Whole;
      At(i);
      if size == 0 || node == null || node.next == end {
        return null;
      }
      return node.next;
    }

    /** `deque_find`: no tag and the empty tag are never found. */
    method Find(tag: Tag) returns (n: Node?)
      requires Valid()
      ensures n == if tag == None || tag == Some([]) then null else FirstWith(nodes, tag)
    {
      hide Piece;
      if tag == None || tag == Some([]) || size == 0 {
        return null;
      }
      At(0);
      ghost var i := 0;
      n := Next(start, 0);
      while n != null
        invariant Valid() && 0 <= i <= |nodes| && n == First(nodes[i..], null)
        invariant FirstWith(nodes[i..], tag) == FirstWith(nodes, tag)
        decreases |nodes| - i
      {
        if n.tag == tag {
          return n;
        }
        assert i < |nodes| && n == nodes[i] && nodes[i..][1..] == nodes[i + 1..];
        At(i);
        i := i + 1;
        n := Next(n, i);
      }
    }

    /** `pgvictoria_deque_get` */
    method Get(tag: Tag) returns (data: nat)
      requires Valid()
      ensures tag == None || tag == Some([]) || (forall i :: 0 <= i < |nodes| ==> nodes[i].tag != tag) ==> data == 0
      ensures forall i :: 0 <= i < |nodes| && tag != None && IsFirst(nodes, i, tag) ==> data == nodes[i].data.data
    {
      hide Piece;
      hide Whole;
      FirstWithTag(nodes, tag);
      var n := Find(tag);
      return if n == null then 0 else n.data.data;
    }

    /** `pgvictoria_deque_exists` */
    method Exists(tag: Tag) returns (found: bool)
      requires Valid()
      ensures found <==> tag != None && exists i :: 0 <= i < |nodes| && nodes[i].tag == tag
    {
      hide Piece;
      hide Whole;
      FirstWithTag(nodes, tag);
      var n := Find(tag);
      return n != null;
    }

    /** `pgvictoria_deque_sort` */
    method Sort()
      requires Valid()
      modifies this, Nodes(All())
      ensures Valid() && nodes == Sorting(old(nodes)) && Nodes(All()) == old(Nodes(All()))
      ensures TagsAscend(nodes) && multiset(nodes) == multiset(old(nodes))
      ensures forall t: Tag :: WithTag(nodes, t) == WithTag(old(nodes), t)
    {
      hide Sorting;
      hide WithTag;
      hide TagsAscend;
      hide Piece;
      ghost var ns := nodes;
      if size > 1 {
        WholeNodes(start, ns, end);
        WholeNodes(start, Sorting(ns), end);
        SortBetween(start, end, ns);
        nodes := Sorting(ns);
      }
      Sorted(ns);
    }

    /** `pgvictoria_deque_remove`: takes out every node with a tag and counts them. */
    method RemoveTag(tag: Tag) returns (cnt: nat)
      requires Valid()
      modifies this, Nodes(All())
      ensures Valid() && Nodes(All()) <= old(Nodes(All()))
      ensures nodes == if tag == None then old(nodes) else Without(old(nodes), tag)
      ensures cnt == if tag == None then 0 else |WithTag(old(nodes), tag)|
    {
      hide Piece;
      hide Whole;
      hide RemoveAt;
      hide Iterator.Shows;
      hide Without;
      cnt := 0;
      if tag == None {
        return;
      }
      ghost var ns, k := nodes, 0;
      ghost var kept: seq<Node> := [];
      WithoutEnds(ns, tag);
      WithoutOthers(ns, tag, tag);
      hide WithTag;
      hide Keep;
      var iter := new Iterator(this);
      var more := iter.Next();
      while more
        invariant Valid() && iter.Valid() && iter.deque == this && fresh(iter)
        invariant Nodes(All()) <= old(Nodes(All()))
        invariant k <= |ns| && kept == Without(ns[..k], tag) && nodes == kept + ns[k..]
        invariant cnt == |ns| - |nodes|
        invariant more ==> k < |ns| && iter.pos == |kept| + 1 && iter.tag == ns[k].tag && iter.cur != null
        invariant !more ==> k == |ns|
        decreases |ns| - k
      {
        KeepStep(ns, k, kept);
        WithoutLast(ns, k, tag);
        KeepIs(ns[k], tag);
        if iter.tag == tag {
          iter.Remove();
          cnt := cnt + 1;
        }
        kept, k := kept + Keep(ns[k], tag), k + 1;
        more := iter.Next();
      }
    }

    /** `pgvictoria_deque_clear` */
    method Clear()
      requires Valid()
      modifies this, Nodes(All())
      ensures Valid() && nodes == [] && Nodes(All()) <= old(Nodes(All()))
    {
      hide Piece;
      hide Whole;
      var iter := new Iterator(this);
      var more := iter.Next();
      while more
        invariant Valid() && iter.Valid() && iter.deque == this && fresh(iter)
        invariant Nodes(All()) <= old(Nodes(All()))
        invariant iter.pos == (if more then 1 else 0) && (more ==> iter.cur != null) && (!more ==> nodes == [])
        decreases |nodes|
      {
        iter.Remove();
        more := iter.Next();
      }
    }
  }

  lemma KeepIs(x: Node, t: Tag)
    ensures Keep(x, t) == if x.tag == t then [] else [x]
  {
  }

  lemma WithoutLast(s: seq<Node>, k: nat, t: Tag)
    requires k < |s|
    ensures Without(s[..k + 1], t) == Without(s[..k], t) + Keep(s[k], t)
  {
    assert s[..k + 1][..k] == s[..k];
  }

  lemma KeepOthers(x: Node, t: Tag, u: Tag)
    ensures WithTag(Keep(x, t), u) == if u == t then [] else WithTag([x], u)
    ensures |Keep(x, t)| + |WithTag([x], t)| == 1
  {
  }

  /** Taking out one tag leaves the nodes of every other tag as they were. */
  lemma {:induction false} WithoutOthers(s: seq<Node>, t: Tag, u: Tag)
    ensures WithTag(Without(s, t), u) == if u == t then [] else WithTag(s, u)
    ensures |Without(s, t)| + |WithTag(s, t)| == |s|
    decreases |s|
  {
    if s != [] {
      var k := |s| - 1;
      assert s == s[..k + 1] && s == s[..k] + [s[k]];
      WithoutOthers(s[..k], t, u);
      WithoutLast(s, k, t);
      KeepOthers(s[k], t, u);
      hide Without;
      hide WithTag;
      hide Keep;
      WithTagAppend(s[..k], [s[k]], u);
      WithTagAppend(s[..k], [s[k]], t);
      WithTagAppend(Without(s[..k], t), Keep(s[k], t), u);
    }
  }

  lemma WithoutEnds(s: seq<Node>, t: Tag)
    ensures s[..0] == [] && s[..|s|] == s && Without([], t) == [] && s[0..] == s && [] + s == s
  {
  }

  /** What deciding over the next node does to the nodes kept and the others. */
  lemma KeepStep(s: seq<Node>, k: nat, kept: seq<Node>)
    requires k < |s|
    ensures |kept + s[k..]| == |kept| + |s| - k && (kept + s[k..])[|kept|] == s[k]
    ensures RemoveAt(kept + s[k..], |kept|) == kept + s[k + 1..]
    ensures kept + s[k..] == kept + [s[k]] + s[k + 1..]
    ensures kept + [] == kept
  {
  }

  /** `struct deque_iterator`; `pos` is where in the whole list the iterator stands, 0 for the start. */
  class Iterator {
    const deque: Deque
    var cur: Node?
    var tag: Tag
    var value: Option<Value>
    ghost var pos: nat

    ghost predicate Valid()
      reads this, deque, Nodes(deque.All())
    {
      && deque.Valid() && pos <= |deque.nodes|
      && (cur != null ==> cur == deque.All()[pos])
    }

    /** The tag and the value are those of the node the iterator stands on; there are none at the start. */
    ghost predicate Shows()
      reads this, deque
      requires pos <= |deque.nodes|
    {
      && (pos == 0 ==> tag == None && value == None)
      && (pos > 0 ==> tag == deque.nodes[pos - 1].tag && value == Some(deque.nodes[pos - 1].data))
    }

    /** `pgvictoria_deque_iterator_create` */
    constructor (deque: Deque)
      requires deque.Valid()
      ensures Valid() && this.deque == deque && pos == 0 && cur != null && tag == None && value == None
    {
      this.deque := deque;
      cur := deque.start;
      tag := None;
      value := None;
      pos := 0;
    }

    /** `pgvictoria_deque_iterator_next` */
    method Next() returns (more: bool)
      requires Valid()
      modifies this
      ensures Valid() && (more <==> old(cur) != null && old(pos) < |deque.nodes|)
      ensures !more ==> cur == null && pos == old(pos) && tag == old(tag) && value == old(value)
      ensures more ==> pos == old(pos) + 1 && cur == deque.nodes[pos - 1] && tag == cur.tag && value == Some(cur.data)
    {
      hide Piece;
      deque.At(pos);
      var next := deque.Next(cur, pos);
      cur := next;
      if cur == null {
        return false;
      }
      deque.At(pos + 1);
      pos, value, tag := pos + 1, Some(cur.data), cur.tag;
      return true;
    }

    /** `pgvictoria_deque_iterator_has_next` */
    method HasNext() returns (more: bool)
      requires Valid()
      ensures more <==> cur != null && pos < |deque.nodes|
    {
      hide Piece;
      deque.At(pos);
      var next := deque.Next(cur, pos);
      return next != null;
    }

    /** `pgvictoria_deque_iterator_remove`: takes out the node the iterator stands on and steps back,
        so that the next one is the node that followed; without such a node it does nothing. */
    method Remove()
      requires Valid()
      modifies this, deque, Nodes(deque.All())
      ensures Valid() && Nodes(deque.All()) <= old(Nodes(deque.All()))
      ensures old(cur) == null || old(pos) == 0 ==>
                deque.nodes == old(deque.nodes) && cur == old(cur) && pos == old(pos) && tag == old(tag) && value == old(value)
      ensures old(cur) != null && old(pos) > 0 ==>
                && deque.nodes == RemoveAt(old(deque.nodes), old(pos) - 1) && pos == old(pos) - 1 && cur != null
                && Shows()
    {
      hide Piece;
      hide RemoveAt;
      deque.At(pos);
      if cur == null || cur == deque.start || cur == deque.end {
        return;
      }
      var prev := deque.Remove(cur, pos - 1);
      pos := pos - 1;
      deque.At(pos);
      cur, value, tag := prev, None, None;
      if cur != deque.start {
        value, tag := Some(cur.data), cur.tag;
      }
    }
  }

  method SortBetween(start: Node, end: Node, ghost ns: seq<Node>)
    requires ns != [] && Piece(null, Whole(start, ns, end), null)
    modifies start, end, Nodes(ns)
    ensures Piece(null, Whole(start, Sorting(ns), end), null)
  {
    hide Piece;
    hide NextLinked;
    hide PrevLinked;
    hide Sorting;
    hide Whole;
    SortingNodes(ns);
    SortingSize(ns);
    var first := Detach(start, end, ns);
    var node := DequeSort.Sort(first, ns);
    Reattach(start, end, node, Sorting(ns));
  }

  lemma SortingSize(s: seq<Node>)
    ensures |Sorting(s)| == |s|
  {
    SortingPermutes(s);
    hide Sorting;
    assert |multiset(s)| == |s| && |multiset(Sorting(s))| == |Sorting(s)|;
  }

  lemma Sorted(s: seq<Node>)
    ensures TagsAscend(Sorting(s)) && multiset(Sorting(s)) == multiset(s) && |Sorting(s)| == |s|
    ensures forall t: Tag :: WithTag(Sorting(s), t) == WithTag(s, t)
    ensures |s| <= 1 ==> Sorting(s) == s
    ensures Nodes(Sorting(s)) == Nodes(s) && (Tagged(s) ==> Tagged(Sorting(s)))
  {
    SortingAscends(s);
    hide TagsAscend;
    SortingPermutes(s);
    SortingNodes(s);
    forall t: Tag ensures WithTag(Sorting(s), t) == WithTag(s, t) { SortingStable(s, t); }
    SortingSize(s);
    hide Sorting;
    if Tagged(s) {
      forall i | 0 <= i < |Sorting(s)| ensures Sorting(s)[i].tag != Some([]) {
        assert Sorting(s)[i] in Nodes(Sorting(s));
      }
    }
  }

  lemma {:induction false} FirstWithTag(s: seq<Node>, t: Tag)
    ensures FirstWith(s, t) == null <==> forall i :: 0 <= i < |s| ==> s[i].tag != t
    ensures forall i :: 0 <= i < |s| && IsFirst(s, i, t) ==> FirstWith(s, t) == s[i]
  {
    if s != [] {
      FirstWithTag(s[1..], t);
    }
  }
}
