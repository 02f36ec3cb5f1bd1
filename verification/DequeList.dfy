// Pieces of a doubly linked list (deque.c), and the pointer assignments that take a node out and put
// one in.

module DequeList {
  import opened DequeNode
  import opened DequeSort

  function First(s: seq<Node>, after: Node?): Node? {
    if s == [] then after else s[0]
  }

  function Last(before: Node?, s: seq<Node>): Node? {
    if s == [] then before else s[|s| - 1]
  }

  function NextIn(s: seq<Node>, i: nat, after: Node?): Node? {
    if i + 1 < |s| then s[i + 1] else after
  }

  function PrevIn(before: Node?, s: seq<Node>, i: nat): Node?
    requires i < |s|
  {
    if i > 0 then s[i - 1] else before
  }

  /** A piece of a list between the nodes `before` and `after`. */
  ghost predicate Piece(before: Node?, s: seq<Node>, after: Node?)
    reads Nodes(s)
  {
    forall i :: 0 <= i < |s| ==> s[i].next == NextIn(s, i, after) && s[i].prev == PrevIn(before, s, i)
  }

  lemma Pieces(before: Node?, s: seq<Node>, t: seq<Node>, after: Node?)
    ensures Piece(before, s + t, after) <==> Piece(before, s, First(t, after)) && Piece(Last(before, s), t, after)
  {
    forall i | 0 <= i < |s|
      ensures (s + t)[i] == s[i]
      ensures NextIn(s + t, i, after) == NextIn(s, i, First(t, after)) && PrevIn(before, s + t, i) == PrevIn(before, s, i)
    {
    }
    forall i | 0 <= i < |t|
      ensures (s + t)[|s| + i] == t[i]
      ensures NextIn(s + t, |s| + i, after) == NextIn(t, i, after)
      ensures PrevIn(before, s + t, |s| + i) == PrevIn(Last(before, s), t, i)
    {
    }
    hide NextIn;
    hide PrevIn;
    if Piece(before, s + t, after) {
      forall i | 0 <= i < |t| ensures t[i].next == NextIn(t, i, after) && t[i].prev == PrevIn(Last(before, s), t, i) {
        assert (s + t)[|s| + i] == t[i];
      }
    }
  }

  /** A whole list is a piece between nothing and nothing. */
  lemma WholeIsPiece(s: seq<Node>)
    ensures Piece(null, s, null) <==> NextLinked(s) && PrevLinked(s)
  {
    assert forall i :: 0 <= i < |s| ==> NextIn(s, i, null) == After(s, i) && PrevIn(null, s, i) == Before(s, i);
  }

  lemma PieceDistinct(s: seq<Node>, t: seq<Node>)
    requires Piece(null, s + t, null)
    ensures Nodes(s) !! Nodes(t) && Nodes(s + t) == Nodes(s) + Nodes(t)
  {
    WholeIsPiece(s + t);
    LinkedDistinct(s + t);
    NodesAppend(s, t);
    forall i, j | 0 <= i < |s| && 0 <= j < |t| ensures s[i] != t[j] {
      assert s[i] == (s + t)[i] && t[j] == (s + t)[|s| + j];
    }
  }

  lemma OnePiece(before: Node?, x: Node, after: Node?)
    ensures Piece(before, [x], after) <==> x.next == after && x.prev == before
  {
    assert [x][0] == x;
  }

  lemma PieceEnds(p: seq<Node>, x: Node, y: Node, s: seq<Node>)
    requires Piece(null, p + [x] + ([y] + s), null)
    ensures Piece(null, p, x) && x.prev == Last(null, p) && x.next == y
    ensures Piece(y, s, null) && y.next == First(s, null) && y.prev == x
    ensures x != y && x !in Nodes(p) && y !in Nodes(p) && x !in Nodes(s) && y !in Nodes(s)
  {
    hide Piece;
    hide Nodes;
    Pieces(null, p + [x], [y] + s, null);
    Pieces(null, p, [x], y);
    Pieces(x, [y], s, null);
    OnePiece(Last(null, p), x, y);
    OnePiece(x, y, First(s, null));
    PieceDistinct(p + [x], [y] + s);
    assert p + [x] + ([y] + s) == p + ([x] + ([y] + s));
    PieceDistinct(p, [x] + ([y] + s));
    assert p + [x] + ([y] + s) == p + [x] + [y] + s;
    PieceDistinct(p + [x] + [y], s);
    NodesAppend(p, [x]);
    NodesAppend(p + [x], [y]);
    NodesAppend([y], s);
    NodesAppend([x], [y] + s);
    NodesOne(x);
    NodesOne(y);
  }

  lemma PieceJoin(p: seq<Node>, x: Node, y: Node, s: seq<Node>)
    requires Piece(null, p, x) && x.prev == Last(null, p) && x.next == y
    requires Piece(y, s, null) && y.next == First(s, null) && y.prev == x
    ensures Piece(null, p + [x] + ([y] + s), null)
  {
    hide Piece;
    OnePiece(Last(null, p), x, y);
    OnePiece(x, y, First(s, null));
    Pieces(x, [y], s, null);
    Pieces(null, p, [x], y);
    Pieces(null, p + [x], [y] + s, null);
  }

  /** `prev->next = next; next->prev = prev` takes out the node between them. */
  method Splice(prev: Node, next: Node, ghost p: seq<Node>, ghost x: Node, ghost s: seq<Node>)
    requires Piece(null, p + [prev] + [x] + ([next] + s), null)
    modifies prev, next
    ensures Piece(null, p + [prev] + ([next] + s), null)
  {
    PieceEnds(p + [prev], x, next, s);
    assert p + [prev] + [x] + ([next] + s) == p + [prev] + ([x] + ([next] + s));
    PieceEnds(p, prev, x, [next] + s);
    assert next in Nodes([next] + s);
    prev.next := next;
    next.prev := prev;
    PieceJoin(p, prev, next, s);
  }

  /** The four assignments of `deque_offer`: a new node between the last one and the end. */
  method Insert(last: Node, n: Node, end: Node, ghost p: seq<Node>)
    requires Piece(null, p + [last] + [end], null)
    requires n !in Nodes(p + [last] + [end])
    modifies last, n, end
    ensures Piece(null, p + [last] + [n] + [end], null)
  {
    assert p + [last] + [end] == p + [last] + ([end] + []);
    PieceEnds(p, last, end, []);
    assert last in Nodes(p + [last] + [end]) && end in Nodes(p + [last] + [end]);
    NodesAppend(p, [last]);
    NodesAppend(p + [last], [end]);
    last.next := n;
    n.prev := last;
    n.next := end;
    end.prev := n;
    OnePiece(n, end, null);
    PieceJoin(p, last, n, [end]);
    assert p + [last] + ([n] + [end]) == p + [last] + [n] + [end];
  }
}
