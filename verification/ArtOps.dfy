// What one step of search, insert and delete does to the map a tree stands for. Each lemma is one
// branch of art_search, art_node_insert or art_node_delete; the methods of the node classes call
// them where they take that branch.

module ArtOps {
  import opened Bytes
  import opened Collections
  import opened Values
  import opened ArtTree

  function Lookup(m: map<seq<Byte>, Value>, k: seq<Byte>): Option<Value> {
    if k in m then Some(m[k]) else None
  }

  // ----- search -----

  /** The optimistic descent of `art_search`: skipping the bytes that are not stored never turns a
      hit into a miss, and a child that is entered decides the answer for the whole node. */
  lemma SearchStep(t: Tree, p: seq<Byte>, k: seq<Byte>)
    requires t.Inner? && Wf(t, p) && |p| <= |k|
    ensures |t.stored| == Min(t.prefixLen, MAX_PREFIX_LEN)
    ensures k in Dict(t) ==>
              && CheckPrefixPartial(t, k, |p|) == Min(t.prefixLen, MAX_PREFIX_LEN)
              && |p| + t.prefixLen < |k| && k[|p| + t.prefixLen] in t.kids
    ensures |p| + t.prefixLen < |k| && k[|p| + t.prefixLen] in t.kids ==>
              Lookup(Dict(t), k) == Lookup(Dict(t.kids[k[|p| + t.prefixLen]]), k)
    ensures |Path(t, p)| == |p| + t.prefixLen
  {
    hide Wf;
    hide Dict;
    hide MinKey;
    StoredBytes(t, p);
    DictKid(t, p, k);
    if k in Dict(t) {
      KeysExtend(t, p, k);
      StoredMatches(t, p, k);
    }
  }

  lemma StoredMatches(t: Tree, p: seq<Byte>, k: seq<Byte>)
    requires t.Inner? && Wf(t, p) && Path(t, p) < k
    ensures |t.stored| == Min(t.prefixLen, MAX_PREFIX_LEN) && |p| + |t.stored| <= |k|
    ensures CheckPrefixPartial(t, k, |p|) == Min(t.prefixLen, MAX_PREFIX_LEN)
  {
    hide Dict;
    hide MinKey;
    StoredBytes(t, p);
    var fp := Path(t, p);
    forall i | 0 <= i < |t.stored| ensures t.stored[i] == k[|p| + i] {
      assert fp[|p| + i] == MinKey(t)[|p| + i];
    }
  }

  // ----- insert -----

  /** An inner node with exactly two children. */
  lemma PairDict(t: Tree, p: seq<Byte>, x: Byte, y: Byte, k: seq<Byte>)
    requires t.Inner? && Wf(t, p) && x != y && t.kids.Keys == {x, y}
    ensures k in Dict(t) <==> k in Dict(t.kids[x]) || k in Dict(t.kids[y])
    ensures k in Dict(t.kids[x]) ==> k in Dict(t) && Dict(t)[k] == Dict(t.kids[x])[k]
    ensures k in Dict(t.kids[y]) ==> k in Dict(t) && Dict(t)[k] == Dict(t.kids[y])[k]
  {
    hide Wf;
    hide Dict;
    hide MinKey;
    DictKid(t, p, k);
    assert x in t.kids && y in t.kids;
    if k in Dict(t.kids[x]) {
      KidKeys(t, p, x, k);
    }
    if k in Dict(t.kids[y]) {
      KidKeys(t, p, y, k);
    }
  }

  /** A two-way branch at `fp` between a new leaf and an old subtree stands for the old map with
      the new key. Both split cases and the expansion of a leaf build such a branch. */
  lemma BranchDict(t: Tree, p: seq<Byte>, fp: seq<Byte>, x: Byte, y: Byte, k: seq<Byte>, v: Value, o: Tree)
    requires IsKey(k) && x != y && fp + [x] <= k && p <= fp
    requires Wf(o, fp + [y])
    requires t == Inner(|fp| - |p|, StoredPart(fp[|p|..]), map[x := Leaf(k, v), y := o])
    ensures Wf(t, p) && Dict(t) == Dict(o)[k := v]
  {
    hide Dict;
    hide MinKey;
    assert t.kids.Keys == {x, y};
    assert |t.kids.Keys| == 2;
    assert Wf(t.kids[x], fp + [x]) && Wf(t.kids[y], fp + [y]);
    assert WfOn(t, p, fp);
    WfIntro(t, p, fp);
    BranchMap(t, p, x, y, k, v, o);
  }

  lemma BranchMap(t: Tree, p: seq<Byte>, x: Byte, y: Byte, k: seq<Byte>, v: Value, o: Tree)
    requires t.Inner? && Wf(t, p) && x != y && t.kids == map[x := Leaf(k, v), y := o]
    ensures Dict(t) == Dict(o)[k := v]
  {
    hide Wf;
    hide MinKey;
    assert t.kids.Keys == {x, y};
    assert Dict(t.kids[x]) == map[k := v];
    hide Dict;
    forall q ensures Lookup(Dict(t), q) == Lookup(Dict(o)[k := v], q) {
      PairDict(t, p, x, y, q);
      if q in Dict(t.kids[x]) && q in Dict(t.kids[y]) {
        KidKeys(t, p, x, q);
        KidKeys(t, p, y, q);
      }
    }
    LookupExt(Dict(t), Dict(o)[k := v]);
  }

  lemma LookupExt(m: map<seq<Byte>, Value>, n: map<seq<Byte>, Value>)
    requires forall q :: Lookup(m, q) == Lookup(n, q)
    ensures m == n
  {
    forall q ensures q in m <==> q in n {
      assert Lookup(m, q) == Lookup(n, q);
    }
    forall q | q in m ensures m[q] == n[q] {
      assert Lookup(m, q) == Lookup(n, q);
    }
  }

  /** A leaf and a new key reached by the same bytes agree up to where they part, and part before
      either of them ends. */
  lemma LeafParts(p: seq<Byte>, k: seq<Byte>, o: seq<Byte>, j: nat)
    requires IsKey(k) && IsKey(o) && k != o && p <= k && p <= o
    requires |p| <= j && j == Diverge(k, o, |p|)
    ensures j < |k| && j < |o| && k[j] != o[j] && k[..j] == o[..j] && p <= k[..j]
  {
    TakeEqual(k, o, |p|);
    TakeEqual(k, o, j);
    LeafSplits(k, o, j);
  }

  /** Lazy expansion: a leaf that holds another key becomes a branch with two leaves. */
  lemma LeafExpands(was: Tree, p: seq<Byte>, k: seq<Byte>, v: Value, j: nat, t: Tree)
    requires was.Leaf? && Wf(was, p) && IsKey(k) && p <= k && k != was.key
    requires |p| <= j && j < |k| && j < |was.key| && k[j] != was.key[j] && k[..j] == was.key[..j]
    requires t == Inner(j - |p|, StoredPart(k[|p|..j]), map[k[j] := Leaf(k, v), was.key[j] := was])
    ensures Wf(t, p) && Dict(t) == Dict(was)[k := v]
  {
    hide Dict;
    hide MinKey;
    hide StoredPart;
    var o := was.key;
    var fp := k[..j];
    assert fp[|p|..] == k[|p|..j];
    assert fp + [k[j]] == k[..j + 1];
    assert fp + [o[j]] == o[..j + 1];
    BranchDict(t, p, fp, k[j], o[j], k, v, was);
  }

  /** Two different terminated keys part before either of them ends. */
  lemma LeafSplits(a: seq<Byte>, b: seq<Byte>, j: nat)
    requires IsKey(a) && IsKey(b) && a != b && j <= |a| && j <= |b| && a[..j] == b[..j]
    requires j < |a| && j < |b| ==> a[j] != b[j]
    ensures j < |a| && j < |b|
  {
    if j == |a| {
      assert a <= b;
      PrefixFree(a, b);
    } else if j == |b| {
      assert b <= a;
      PrefixFree(b, a);
    }
  }

  /** The map of an inner node depends only on its children. */
  lemma {:induction false} SameKids(t: Tree, u: Tree, b: nat)
    requires t.Inner? && u.Inner? && t.kids == u.kids && b <= 256
    ensures DictFrom(t, b) == DictFrom(u, b)
    decreases 256 - b
  {
    if b < 256 {
      SameKids(t, u, b + 1);
    }
  }

  /** The lower half of a node that is split after `n` bytes of its path. */
  function Lower(t: Tree, fp: seq<Byte>, d: nat, n: nat): Tree
    requires t.Inner? && n < t.prefixLen && |fp| == d + t.prefixLen
  {
    Inner(t.prefixLen - (n + 1), StoredPart(fp[d + n + 1..]), t.kids)
  }

  /** Splitting an inner node inside its path: the old node moves down, keeping its children. */
  lemma NodeSplits(was: Tree, p: seq<Byte>, k: seq<Byte>, v: Value, n: nat, t: Tree)
    requires was.Inner? && Wf(was, p) && IsKey(k) && p <= k
    requires n < was.prefixLen && |p| + n < |k|
    requires |Path(was, p)| == |p| + was.prefixLen
    requires Path(was, p)[..|p| + n] == k[..|p| + n] && k[|p| + n] != Path(was, p)[|p| + n]
    requires t == Inner(n, StoredPart(k[|p|..|p| + n]),
                        map[k[|p| + n] := Leaf(k, v), Path(was, p)[|p| + n] := Lower(was, Path(was, p), |p|, n)])
    ensures Wf(t, p) && Dict(t) == Dict(was)[k := v]
  {
    hide Dict;
    hide MinKey;
    var fp := Path(was, p);
    var d := |p|;
    var low := Lower(was, fp, d, n);
    var y := fp[d + n];
    LowerWf(was, p, n);
    assert Dict(low) == Dict(was) by {
      SameKids(low, was, 0);
      LowerDict(low, was);
    }
    var stem := k[..d + n];
    assert stem[d..] == k[d..d + n];
    assert stem + [k[d + n]] == k[..d + n + 1];
    assert stem + [y] == fp[..d + n + 1];
    BranchDict(t, p, stem, k[d + n], y, k, v, low);
  }

  /** Where the bytes of the two halves come from: the stored prefix when it is complete, and the
      leftmost key when it is not. */
  lemma SplitBytes(t: Tree, p: seq<Byte>, k: seq<Byte>, n: nat)
    requires t.Inner? && Wf(t, p) && n < t.prefixLen && |p| + n <= |k|
    requires |Path(t, p)| == |p| + t.prefixLen && Path(t, p)[..|p| + n] == k[..|p| + n]
    ensures |t.stored| == Min(t.prefixLen, MAX_PREFIX_LEN) && |p| + t.prefixLen < |MinKey(t)|
    ensures t.stored[..Min(n, MAX_PREFIX_LEN)] == StoredPart(k[|p|..|p| + n])
    ensures t.prefixLen <= MAX_PREFIX_LEN ==>
              && t.stored[n] == Path(t, p)[|p| + n]
              && t.stored[n + 1..] == StoredPart(Path(t, p)[|p| + n + 1..])
    ensures MinKey(t)[|p| + n] == Path(t, p)[|p| + n]
    ensures var rest := t.prefixLen - (n + 1); var from := |p| + n + 1;
            MinKey(t)[from..from + Min(MAX_PREFIX_LEN, rest)] == StoredPart(Path(t, p)[from..])
  {
    hide Dict;
    hide MinKey;
    var m := MinKey(t);
    var d := |p|;
    var fp := Path(t, p);
    assert fp == m[..d + t.prefixLen];
    assert t.stored == StoredPart(fp[d..]);
    SplitSlices(t.stored, fp, k, d, n);
    var rest := t.prefixLen - (n + 1);
    var from := d + n + 1;
    SliceOfPrefix(fp, m, from, Min(rest, MAX_PREFIX_LEN));
  }

  lemma SliceOfPrefix(fp: seq<Byte>, m: seq<Byte>, from: nat, n: nat)
    requires |fp| <= |m| && fp == m[..|fp|] && from + n <= |fp|
    ensures fp[from..][..n] == m[from..from + n]
  {
    forall i | 0 <= i < n ensures fp[from..][i] == m[from + i] { assert m[..|fp|][from + i] == m[from + i]; }
  }

  lemma SplitSlices(stored: seq<Byte>, fp: seq<Byte>, k: seq<Byte>, d: nat, n: nat)
    requires d + n < |fp| && d + n <= |k| && fp[..d + n] == k[..d + n] && stored == StoredPart(fp[d..])
    ensures stored[..Min(n, MAX_PREFIX_LEN)] == StoredPart(k[d..d + n])
    ensures |fp| - d <= MAX_PREFIX_LEN ==> stored[n] == fp[d + n] && stored[n + 1..] == StoredPart(fp[d + n + 1..])
  {
    TakeEqual(fp, k, d + n);
    var c := Min(n, MAX_PREFIX_LEN);
    assert forall i :: 0 <= i < c ==> stored[i] == fp[d + i] && k[d..d + n][i] == k[d + i];
    assert stored[..c] == k[d..d + n][..c];
  }

  lemma LowerDict(t: Tree, u: Tree)
    requires t.Inner? && u.Inner? && DictFrom(t, 0) == DictFrom(u, 0)
    ensures Dict(t) == Dict(u)
  {
  }

  lemma LowerWf(was: Tree, p: seq<Byte>, n: nat)
    requires was.Inner? && Wf(was, p) && n < was.prefixLen && |Path(was, p)| == |p| + was.prefixLen
    ensures Wf(Lower(was, Path(was, p), |p|, n), Path(was, p)[..|p| + n + 1])
  {
    hide Dict;
    hide MinKey;
    var fp := Path(was, p);
    var low := Lower(was, fp, |p|, n);
    assert WfOn(low, fp[..|p| + n + 1], fp);
    WfIntro(low, fp[..|p| + n + 1], fp);
  }

  /** `node` with child `c` under byte `b`, an update or an addition, keeps its path. */
  lemma KidSet(t: Tree, p: seq<Byte>, b: Byte, c: Tree)
    requires t.Inner? && Wf(t, p) && |Path(t, p)| == |p| + t.prefixLen && Wf(c, Path(t, p) + [b])
    ensures var u := t.(kids := t.kids[b := c]); Wf(u, p) && Path(u, p) == Path(t, p)
  {
    hide Dict;
    hide MinKey;
    var u := t.(kids := t.kids[b := c]);
    assert t.kids.Keys <= u.kids.Keys;
    SubsetSize(t.kids.Keys, u.kids.Keys);
    assert WfOn(u, p, Path(t, p));
    WfIntro(u, p, Path(t, p));
  }

  /** Inserting below a child that exists. */
  lemma KidInserted(t: Tree, p: seq<Byte>, k: seq<Byte>, v: Value, b: Byte, c: Tree)
    requires t.Inner? && Wf(t, p) && b in t.kids && |Path(t, p)| == |p| + t.prefixLen
    requires Path(t, p) + [b] <= k && Wf(c, Path(t, p) + [b]) && Dict(c) == Dict(t.kids[b])[k := v]
    ensures var u := t.(kids := t.kids[b := c]); Wf(u, p) && Dict(u) == Dict(t)[k := v]
  {
    hide Wf;
    hide Dict;
    hide MinKey;
    KidSet(t, p, b, c);
    var u := t.(kids := t.kids[b := c]);
    assert (Path(t, p) + [b])[|Path(t, p)|] == b;
    forall q ensures Lookup(Dict(u), q) == Lookup(Dict(t)[k := v], q) {
      DictKid(t, p, q);
      DictKid(u, p, q);
    }
    LookupExt(Dict(u), Dict(t)[k := v]);
  }

  /** Adding a leaf for a byte that has no child yet. */
  lemma LeafAdded(t: Tree, p: seq<Byte>, k: seq<Byte>, v: Value, b: Byte)
    requires t.Inner? && Wf(t, p) && b !in t.kids && |Path(t, p)| == |p| + t.prefixLen
    requires IsKey(k) && Path(t, p) + [b] <= k
    ensures var u := t.(kids := t.kids[b := Leaf(k, v)]); Wf(u, p) && Dict(u) == Dict(t)[k := v]
  {
    hide MinKey;
    var c := Leaf(k, v);
    assert Wf(c, Path(t, p) + [b]);
    assert Dict(c) == map[k := v];
    AddedKidDict(t, p, k, v, b, c);
  }

  lemma AddedKidDict(t: Tree, p: seq<Byte>, k: seq<Byte>, v: Value, b: Byte, c: Tree)
    requires t.Inner? && Wf(t, p) && b !in t.kids && |Path(t, p)| == |p| + t.prefixLen
    requires Path(t, p) + [b] <= k && Wf(c, Path(t, p) + [b]) && Dict(c) == map[k := v]
    ensures var u := t.(kids := t.kids[b := c]); Wf(u, p) && Dict(u) == Dict(t)[k := v]
  {
    hide Wf;
    hide Dict;
    hide MinKey;
    KidSet(t, p, b, c);
    var u := t.(kids := t.kids[b := c]);
    assert (Path(t, p) + [b])[|Path(t, p)|] == b;
    forall q ensures Lookup(Dict(u), q) == Lookup(Dict(t)[k := v], q) {
      DictKid(t, p, q);
      DictKid(u, p, q);
    }
    LookupExt(Dict(u), Dict(t)[k := v]);
  }

  // ----- delete -----

  /** Deleting below a child that stays. */
  lemma KidDeleted(t: Tree, p: seq<Byte>, k: seq<Byte>, b: Byte, c: Tree)
    requires t.Inner? && Wf(t, p) && b in t.kids && |Path(t, p)| == |p| + t.prefixLen
    requires |Path(t, p)| < |k| && k[|Path(t, p)|] == b
    requires Wf(c, Path(t, p) + [b]) && Dict(c) == Dict(t.kids[b]) - {k}
    ensures var u := t.(kids := t.kids[b := c]); Wf(u, p) && Dict(u) == Dict(t) - {k}
  {
    hide Wf;
    hide Dict;
    hide MinKey;
    KidSet(t, p, b, c);
    var u := t.(kids := t.kids[b := c]);
    forall q ensures Lookup(Dict(u), q) == Lookup(Dict(t) - {k}, q) {
      DictKid(t, p, q);
      DictKid(u, p, q);
    }
    LookupExt(Dict(u), Dict(t) - {k});
  }

  /** Removing a leaf from a node that keeps at least two children. */
  lemma LeafRemoved(t: Tree, p: seq<Byte>, k: seq<Byte>, b: Byte)
    requires t.Inner? && Wf(t, p) && b in t.kids && |t.kids| >= 3
    requires Dict(t.kids[b]).Keys == {k}
    ensures var u := t.(kids := t.kids - {b}); Wf(u, p) && Dict(u) == Dict(t) - {k}
  {
    hide Dict;
    hide MinKey;
    var u := t.(kids := t.kids - {b});
    assert u.kids.Keys == t.kids.Keys - {b};
    assert |u.kids.Keys| == |t.kids.Keys| - 1;
    assert WfOn(u, p, Path(t, p));
    WfIntro(u, p, Path(t, p));
    RemovedKidDict(t, p, k, b);
  }

  lemma RemovedKidDict(t: Tree, p: seq<Byte>, k: seq<Byte>, b: Byte)
    requires t.Inner? && Wf(t, p) && b in t.kids && Dict(t.kids[b]).Keys == {k}
    requires Wf(t.(kids := t.kids - {b}), p) && Path(t.(kids := t.kids - {b}), p) == Path(t, p)
    ensures Dict(t.(kids := t.kids - {b})) == Dict(t) - {k}
  {
    hide Wf;
    hide Dict;
    hide MinKey;
    var u := t.(kids := t.kids - {b});
    assert k in Dict(t.kids[b]);
    KidKeys(t, p, b, k);
    forall q ensures Lookup(Dict(u), q) == Lookup(Dict(t) - {k}, q) {
      DictKid(t, p, q);
      DictKid(u, p, q);
      assert q in Dict(t.kids[b]) <==> q == k;
    }
    LookupExt(Dict(u), Dict(t) - {k});
  }

  /** The path compression of `node4_remove_child`: the prefix of the node, the edge byte and the
      prefix of the child, cut to the bytes there is room for. */
  function MergedStored(plen: nat, stored: seq<Byte>, b: Byte, child: seq<Byte>): seq<Byte> {
    if plen < MAX_PREFIX_LEN then StoredPart(stored + [b] + child) else stored
  }

  function Merged(t: Tree, b: Byte, c: Tree): Tree
    requires t.Inner?
  {
    if c.Leaf? then c
    else Inner(t.prefixLen + 1 + c.prefixLen, MergedStored(t.prefixLen, t.stored, b, c.stored), c.kids)
  }

  lemma MergedStoredIs(t: Tree, p: seq<Byte>, b: Byte, c: Tree, fp: seq<Byte>, cfp: seq<Byte>)
    requires t.Inner? && c.Inner? && p <= fp && |fp| == |p| + t.prefixLen
    requires fp + [b] <= cfp && |cfp| == |fp| + 1 + c.prefixLen
    requires t.stored == StoredPart(fp[|p|..]) && c.stored == StoredPart(cfp[|fp| + 1..])
    ensures MergedStored(t.prefixLen, t.stored, b, c.stored) == StoredPart(cfp[|p|..])
  {
    assert cfp[..|fp| + 1] == fp + [b];
    assert forall i :: 0 <= i < |fp| ==> cfp[i] == fp[i] by {
      assert forall i :: 0 <= i < |fp| ==> cfp[..|fp| + 1][i] == (fp + [b])[i];
    }
    assert cfp[|fp|] == b by {
      assert cfp[..|fp| + 1][|fp|] == (fp + [b])[|fp|];
    }
    var q := cfp[|p|..];
    assert q == fp[|p|..] + [b] + cfp[|fp| + 1..];
  }

  /** Merging a node with its last child gives the child's map, reached by the node's path. */
  lemma MergedWf(t: Tree, p: seq<Byte>, b: Byte)
    requires t.Inner? && Wf(t, p) && b in t.kids
    ensures Wf(Merged(t, b, t.kids[b]), p) && Dict(Merged(t, b, t.kids[b])) == Dict(t.kids[b])
  {
    hide Dict;
    hide MinKey;
    var c := t.kids[b];
    var fp := Path(t, p);
    assert Wf(c, fp + [b]);
    if c.Inner? {
      var cfp := Path(c, fp + [b]);
      var m := Merged(t, b, c);
      assert WfOn(c, fp + [b], cfp);
      MergedStoredIs(t, p, b, c, fp, cfp);
      MergedOn(t, p, b, c, fp, cfp);
      WfIntro(m, p, cfp);
      SameKids(m, c, 0);
      LowerDict(m, c);
    } else {
      assert p <= fp + [b];
    }
  }

  lemma MergedOn(t: Tree, p: seq<Byte>, b: Byte, c: Tree, fp: seq<Byte>, cfp: seq<Byte>)
    requires t.Inner? && c.Inner? && WfOn(c, fp + [b], cfp) && p <= fp && |fp| == |p| + t.prefixLen
    requires MergedStored(t.prefixLen, t.stored, b, c.stored) == StoredPart(cfp[|p|..])
    ensures WfOn(Merged(t, b, c), p, cfp)
  {
    hide MinKey;
    hide Dict;
    hide MergedStored;
    assert p <= fp + [b];
  }

  /** Removing one of two leaves: the node is replaced by the child that is left. */
  lemma LeafMerged(t: Tree, p: seq<Byte>, k: seq<Byte>, b: Byte, c: Byte)
    requires t.Inner? && Wf(t, p) && b != c && t.kids.Keys == {b, c}
    requires Dict(t.kids[b]).Keys == {k}
    ensures var u := Merged(t, c, t.kids[c]); Wf(u, p) && Dict(u) == Dict(t) - {k}
  {
    hide Wf;
    hide Dict;
    hide MinKey;
    hide Merged;
    assert c in t.kids && b in t.kids;
    MergedWf(t, p, c);
    assert k in Dict(t.kids[b]);
    KidKeys(t, p, b, k);
    forall q ensures Lookup(Dict(t.kids[c]), q) == Lookup(Dict(t) - {k}, q) {
      PairDict(t, p, b, c, q);
      assert q in Dict(t.kids[b]) <==> q == k;
      if q in Dict(t.kids[c]) {
        KidKeys(t, p, c, q);
      }
    }
    LookupExt(Dict(t.kids[c]), Dict(t) - {k});
  }
}
