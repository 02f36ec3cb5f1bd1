// The members of a JSON object are the entries of a radix tree (json.c, art.c): what Json says about
// members in order is what the tree does.

module JsonTree {
  import opened Bytes
  import opened ArtTree
  import opened ArtOrder
  import Art
  import ArtHeap
  import ArtNode
  import Json
  import Values

  /** The member for an entry: the key without its terminator, and what a stored value stands for. */
  function MemberOf(e: Entry, read: Values.Value -> Json.Value): Json.Member
    requires IsKey(e.0)
  {
    Json.Member(e.0[..|e.0| - 1], read(e.1))
  }

  ghost predicate Keyed(es: seq<Entry>) {
    forall i :: 0 <= i < |es| ==> IsKey(es[i].0)
  }

  function MembersOf(es: seq<Entry>, read: Values.Value -> Json.Value): (ms: seq<Json.Member>)
    requires Keyed(es)
    ensures |ms| == |es|
  {
    seq(|es|, i requires 0 <= i < |es| => MemberOf(es[i], read))
  }

  // ----- order -----

  /** Terminated keys are in the order of their texts. */
  lemma TextOrder(a: seq<Byte>, b: seq<Byte>)
    requires IsKey(a) && IsKey(b) && LexLess(a, b)
    ensures StrLess(a[..|a| - 1], b[..|b| - 1])
  {
    var i: nat :| SmallerAt(a, b, i);
    if i == |a| {
      assert a <= b;
      PrefixFree(a, b);
    }
    var s, t := a[..|a| - 1], b[..|b| - 1];
    assert s[..i] == a[..i] && t[..i] == b[..i];
    LexLessAt(s, t, i);
    StrLessIsLexLess(s, t);
  }

  lemma MembersSorted(es: seq<Entry>, read: Values.Value -> Json.Value)
    requires Keyed(es) && Increasing(es)
    ensures Json.Sorted(MembersOf(es, read))
  {
    forall i, j | 0 <= i < j < |es| ensures StrLess(MembersOf(es, read)[i].key, MembersOf(es, read)[j].key) {
      TextOrder(es[i].0, es[j].0);
    }
  }

  // ----- members in order are known by their lookups -----

  lemma {:induction false} GetFinds(ms: seq<Json.Member>, i: nat)
    requires Json.Sorted(ms) && i < |ms|
    ensures Json.Get(ms, ms[i].key) == Some(ms[i].val)
    decreases |ms|
  {
    if i > 0 {
      StrLessIsLexLess(ms[0].key, ms[i].key);
      LexLessAsymmetric(ms[0].key, ms[i].key);
      GetFinds(ms[1..], i - 1);
    }
  }

  lemma {:induction false} GetNone(ms: seq<Json.Member>, k: seq<Byte>)
    requires forall i :: 0 <= i < |ms| ==> ms[i].key != k
    ensures Json.Get(ms, k) == None
  {
    if ms != [] {
      GetNone(ms[1..], k);
    }
  }

  lemma GetBelow(ms: seq<Json.Member>, k: seq<Byte>)
    requires Json.Sorted(ms) && ms != [] && StrLess(k, ms[0].key)
    ensures Json.Get(ms, k) == None
  {
    forall i | 0 <= i < |ms| ensures ms[i].key != k {
      if i > 0 {
        StrLessTransitive(k, ms[0].key, ms[i].key);
      }
      StrLessIsLexLess(k, ms[i].key);
      LexLessAsymmetric(k, ms[i].key);
    }
    GetNone(ms, k);
  }

  lemma GetRest(ms: seq<Json.Member>, q: seq<Byte>)
    requires Json.Sorted(ms) && ms != []
    ensures Json.Get(ms[1..], q) == if q == ms[0].key then None else Json.Get(ms, q)
  {
    if q == ms[0].key && |ms| > 1 {
      assert Json.Sorted(ms[1..]);
      GetBelow(ms[1..], q);
    }
  }

  /** Members in order with the same lookups are the same members. */
  lemma {:induction false} SameLookups(a: seq<Json.Member>, b: seq<Json.Member>)
    requires Json.Sorted(a) && Json.Sorted(b)
    requires forall q :: Json.Get(a, q) == Json.Get(b, q)
    ensures a == b
    decreases |a|
  {
    if a == [] || b == [] {
      if a != [] { GetFinds(a, 0); }
      if b != [] { GetFinds(b, 0); }
    } else {
      GetFinds(a, 0);
      GetFinds(b, 0);
      StrLessTotal(a[0].key, b[0].key);
      if StrLess(a[0].key, b[0].key) { GetBelow(b, a[0].key); }
      if StrLess(b[0].key, a[0].key) { GetBelow(a, b[0].key); }
      assert a[0] == b[0];
      forall q ensures Json.Get(a[1..], q) == Json.Get(b[1..], q) {
        GetRest(a, q);
        GetRest(b, q);
      }
      SameLookups(a[1..], b[1..]);
      assert a == [a[0]] + a[1..] && b == [b[0]] + b[1..];
    }
  }

  /** A lookup among the members is a lookup in the tree's map. */
  lemma GetIsLookup(es: seq<Entry>, m: map<seq<Byte>, Values.Value>, q: seq<Byte>, read: Values.Value -> Json.Value)
    requires Keyed(es) && Increasing(es) && Lists(es, m)
    ensures Json.Get(MembersOf(es, read), q) == if q + [0] in m then Some(read(m[q + [0]])) else None
  {
    var ms := MembersOf(es, read);
    MembersSorted(es, read);
    forall i | 0 <= i < |es| ensures es[i].0 == ms[i].key + [0] { }
    hide StrLess;
    hide LexLess;
    hide IsKey;
    if q + [0] in m {
      var i :| 0 <= i < |es| && es[i].0 == q + [0];
      assert ms[i].key == q;
      GetFinds(ms, i);
    } else {
      GetNone(ms, q);
    }
  }

  /** Inserting into the tree is putting among the members: the traversal after an insertion lists the
      members of the traversal before it, with the new one put in its place. */
  lemma InsertIsPut(before: seq<Entry>, after: seq<Entry>, m: map<seq<Byte>, Values.Value>, k: seq<Byte>,
                    v: Values.Value, read: Values.Value -> Json.Value)
    requires Keyed(before) && Increasing(before) && Lists(before, m)
    requires Keyed(after) && Increasing(after) && Lists(after, m[k + [0] := v])
    ensures MembersOf(after, read) == Json.Put(MembersOf(before, read), k, read(v))
  {
    var a, b := MembersOf(before, read), MembersOf(after, read);
    MembersSorted(before, read);
    MembersSorted(after, read);
    Json.PutSorted(a, k, read(v));
    forall q ensures Json.Get(Json.Put(a, k, read(v)), q) == Json.Get(b, q) {
      Json.PutGet(a, k, read(v), q);
      GetIsLookup(before, m, q, read);
      GetIsLookup(after, m[k + [0] := v], q, read);
      assert q + [0] == k + [0] ==> (q + [0])[..|q|] == (k + [0])[..|k|];
    }
    SameLookups(Json.Put(a, k, read(v)), b);
  }

  lemma TreeKeyed(t: Art.Tree)
    requires t.Valid()
    ensures Keyed(t.InOrder())
  {
    t.InOrderIsSorted();
    forall i | 0 <= i < |t.InOrder()| ensures IsKey(t.InOrder()[i].0) {
      KeysExtend(ArtHeap.TreeOf(t.root), [], t.InOrder()[i].0);
    }
  }

  /** The members that a tree holds, in the order of its traversal. */
  ghost function Members(t: Art.Tree, read: Values.Value -> Json.Value): seq<Json.Member>
    requires t.Valid()
    reads t, if t.root.ToNode? then {t.root.node} else if t.root.ToLeaf? then {t.root.leaf} else {}, ArtNode.Foot(t.root)
  {
    TreeKeyed(t);
    MembersOf(t.InOrder(), read)
  }

  /** What `json_add` does with a member: it goes into the object's tree. */
  method PutMember(t: Art.Tree, key: seq<Byte>, value: Values.Value, ghost read: Values.Value -> Json.Value)
    requires t.Valid() && IsCString(key) && value.vtype != Values.VALUE_NONE
    modifies t, ArtNode.Foot(t.root)
    ensures t.Valid()
    ensures Members(t, read) == Json.Put(old(Members(t, read)), key, read(value))
  {
    ghost var before, m := t.InOrder(), t.Contents();
    t.InOrderIsSorted();
    TreeKeyed(t);
    var status := t.Insert(Some(key), value);
    t.InOrderIsSorted();
    TreeKeyed(t);
    InsertIsPut(before, t.InOrder(), m, key, value, read);
  }
}
