// The operations of a deque without other threads (deque.c), seen as the events that the log of a
// thread-safe deque is replayed by.

module DequeReplay {
  import opened Bytes
  import opened Values
  import opened DequeNode
  import Deque
  import DequeLock
  import DequeSort

  function DataOf(ns: seq<Node>): (vs: seq<Value>)
    ensures |vs| == |ns|
  {
    seq(|ns|, i requires 0 <= i < |ns| => ns[i].data)
  }

  lemma OneMore(ns: seq<Node>, after: seq<Node>)
    requires |after| == |ns| + 1 && after[..|ns|] == ns
    ensures DataOf(after) == DataOf(ns) + [after[|ns|].data]
  {
    forall i | 0 <= i < |ns| ensures after[i] == ns[i] { assert after[..|ns|][i] == after[i]; }
  }

  /** `pgvictoria_deque_add`: what replaying an addition does to the values of the list. */
  method Add(d: Deque.Deque, who: DequeLock.Thread, tag: Tag, v: Value) returns (ghost e: DequeLock.Event)
    requires d.Valid() && v.vtype != VALUE_NONE
    modifies d, DequeSort.Nodes(d.All())
    ensures d.Valid() && e == DequeLock.Added(who, v)
    ensures DequeLock.Apply(old(DataOf(d.nodes)), e) == Some(DataOf(d.nodes))
  {
    ghost var ns := d.nodes;
    d.Offer(tag, v);
    e := DequeLock.Added(who, v);
    OneMore(ns, d.nodes);
  }

  lemma OneLess(ns: seq<Node>)
    requires ns != []
    ensures var k := |ns| - 1;
            DataOf(ns[1..]) == DataOf(ns)[1..] && DataOf(ns[..k]) == DataOf(ns)[..k]
  {
  }

  /** Both polls: what replaying the event does to the values of the list, and what the event gives. */
  method Poll(d: Deque.Deque, who: DequeLock.Thread, side: DequeLock.Side) returns (data: nat, ghost e: DequeLock.Event)
    requires d.Valid()
    modifies d, DequeSort.Nodes(d.All())
    ensures d.Valid() && e.who == who && !e.Added? && e.side == side
    ensures DequeLock.Apply(old(DataOf(d.nodes)), e) == Some(DataOf(d.nodes))
    ensures data == if e.Taken? then e.v.data else 0
  {
    ghost var ns := d.nodes;
    var tag;
    if side == DequeLock.First {
      data, tag := d.Poll();
    } else {
      data, tag := d.PollLast();
    }
    e := DequeLock.FoundEmpty(who, side);
    if ns != [] {
      e := DequeLock.Taken(who, side, ns[if side == DequeLock.First then 0 else |ns| - 1].data);
      OneLess(ns);
    }
  }
}
