// The adaptive radix tree as a value: what the nodes of art.c mean, independent of how a node
// is laid out in memory. The functions follow the branches of the C code; the lemmas say what
// they do to the map the tree stands for.

module ArtTree {
  import opened Bytes
  import opened Values

  /** `MAX_PREFIX_LEN`: an inner node stores at most this many bytes of its compressed path. */
  const MAX_PREFIX_LEN: nat := 10

  /** A leaf keeps the whole key; an inner node keeps the length of its compressed path, the
      first bytes of it, and one child for each byte that may follow. */
  datatype Tree =
    | Leaf(key: seq<Byte>, value: Value)
    | Inner(prefixLen: nat, stored: seq<Byte>, kids: map<Byte, Tree>)

  // ----- what a tree means -----

  /** The plain map that a tree stands for. */
  ghost function Dict(t: Tree): map<seq<Byte>, Value>
    decreases t, 257
  {
    if t.Leaf? then map[t.key := t.value] else DictFrom(t, 0)
  }

  /** The entries below the children of an inner node whose byte is at least `b`. */
  ghost function DictFrom(t: Tree, b: nat): map<seq<Byte>, Value>
    requires t.Inner? && b <= 256
    decreases t, 256 - b
  {
    if b == 256 then map[]
    else (if b in t.kids then Dict(t.kids[b]) else map[]) + DictFrom(t, b + 1)
  }

  /** The key in the leftmost leaf, the one `node_get_minimum` reaches. */
  function MinKey(t: Tree): seq<Byte>
    decreases t, 257
  {
    if t.Leaf? then t.key else MinKeyFrom(t, 0)
  }

  function MinKeyFrom(t: Tree, b: nat): seq<Byte>
    requires t.Inner? && b <= 256
    decreases t, 256 - b
  {
    if b == 256 then []
    else if b in t.kids then MinKey(t.kids[b]) else MinKeyFrom(t, b + 1)
  }

  /** The bytes of a compressed path that a node has room for. */
  function StoredPart(path: seq<Byte>): seq<Byte> {
    path[..Min(|path|, MAX_PREFIX_LEN)]
  }

  /** The path invariant of a subtree that is reached by the bytes `p`. The path of an inner node
      is spelled by its leftmost key, so none of its bytes needs to be stored. */
  ghost predicate Wf(t: Tree, p: seq<Byte>)
    decreases t, 1
  {
    match t
    case Leaf(k, _) => IsKey(k) && p <= k
    case Inner(plen, _, _) => |p| + plen < |MinKey(t)| && WfOn(t, p, MinKey(t)[..|p| + plen])
  }

  /** Every leaf below an inner node shares the full compressed path `fp`, stored or not; the
      stored bytes are exactly the first ten, at most, that it adds to `p`; the byte of an edge is
      the next byte of every key below it; and no inner node has fewer than two children. */
  ghost predicate WfOn(t: Tree, p: seq<Byte>, fp: seq<Byte>)
    requires t.Inner?
    decreases t, 0
  {
    && |t.kids| >= 2
    && p <= fp && |fp| == |p| + t.prefixLen
    && t.stored == StoredPart(fp[|p|..])
    && forall b: Byte :: b in t.kids ==> Wf(t.kids[b], fp + [b])
  }

  /** The full path that all keys below an inner node share. */
  ghost function Path(t: Tree, p: seq<Byte>): seq<Byte>
    requires t.Inner? && Wf(t, p)
  {
    MinKey(t)[..|p| + t.prefixLen]
  }

  lemma {:induction false} DictFromSplit(t: Tree, b: nat, k: seq<Byte>)
    requires t.Inner? && b <= 256
    ensures k in DictFrom(t, b) <==> exists c: Byte :: b <= c && c in t.kids && k in Dict(t.kids[c])
    decreases 256 - b
  {
    if b < 256 {
      DictFromSplit(t, b + 1, k);
    }
  }

  lemma {:induction false} MinKeyFromIs(t: Tree, b: nat) returns (c: Byte)
    requires t.Inner? && b <= 256
    requires exists a: Byte :: b <= a && a in t.kids
    ensures b <= c && c in t.kids && MinKeyFrom(t, b) == MinKey(t.kids[c])
    ensures forall a: Byte :: b <= a < c ==> a !in t.kids
    decreases 256 - b
  {
    if b in t.kids {
      c := b;
    } else {
      c := MinKeyFromIs(t, b + 1);
    }
  }

  /** A nonempty map has a key. */
  lemma SomeKey<T>(m: map<Byte, T>) returns (b: Byte)
    requires |m| > 0
    ensures b in m
  {
    b :| b in m.Keys;
  }

  /** The leftmost key extends the path of its subtree. */
  lemma {:induction false} MinKeyExtends(t: Tree, p: seq<Byte>)
    requires Wf(t, p)
    ensures IsKey(MinKey(t)) && p <= MinKey(t)
    decreases t
  {
    if t.Inner? {
      var a := SomeKey(t.kids);
      var c := MinKeyFromIs(t, 0);
      MinKeyExtends(t.kids[c], Path(t, p) + [c]);
    }
  }

  /** One step of the path invariant. */
  lemma KidWf(t: Tree, p: seq<Byte>, c: Byte)
    requires t.Inner? && Wf(t, p) && c in t.kids
    ensures |Path(t, p)| == |p| + t.prefixLen && p <= Path(t, p)
    ensures Wf(t.kids[c], Path(t, p) + [c])
  {
    hide MinKey;
    hide Dict;
  }

  /** Every key below a node extends the bytes that lead to the node. */
  lemma {:induction false} KeysExtend(t: Tree, p: seq<Byte>, k: seq<Byte>)
    requires Wf(t, p) && k in Dict(t)
    ensures IsKey(k) && p <= k
    ensures t.Inner? ==> Path(t, p) < k && k[|Path(t, p)|] in t.kids
    decreases t
  {
    if t.Inner? {
      hide Wf;
      DictFromSplit(t, 0, k);
      var c: Byte :| c in t.kids && k in Dict(t.kids[c]);
      KidWf(t, p, c);
      KeysExtend(t.kids[c], Path(t, p) + [c], k);
      assert (Path(t, p) + [c])[|Path(t, p)|] == c;
    }
  }

  /** A key below the child for byte `c` has that byte after the shared path. */
  lemma KidKeys(t: Tree, p: seq<Byte>, c: Byte, k: seq<Byte>)
    requires t.Inner? && Wf(t, p) && c in t.kids && k in Dict(t.kids[c])
    ensures |k| > |Path(t, p)| && k[|Path(t, p)|] == c && Path(t, p) <= k
  {
    hide Wf;
    KidWf(t, p, c);
    KeysExtend(t.kids[c], Path(t, p) + [c], k);
    assert (Path(t, p) + [c])[|Path(t, p)|] == c;
  }

  /** The map of an inner node, read through the child that the key selects. */
  lemma {:induction false} DictFromKid(t: Tree, p: seq<Byte>, b: nat, k: seq<Byte>)
    requires t.Inner? && Wf(t, p) && b <= 256
    ensures k in DictFrom(t, b) <==>
            |k| > |Path(t, p)| && b <= k[|Path(t, p)|] && k[|Path(t, p)|] in t.kids && k in Dict(t.kids[k[|Path(t, p)|]])
    ensures k in DictFrom(t, b) ==> DictFrom(t, b)[k] == Dict(t.kids[k[|Path(t, p)|]])[k]
    decreases 256 - b
  {
    hide Wf;
    if b < 256 {
      DictFromKid(t, p, b + 1, k);
      if b in t.kids && k in Dict(t.kids[b]) {
        KidKeys(t, p, b, k);
      }
    }
  }

  lemma DictKid(t: Tree, p: seq<Byte>, k: seq<Byte>)
    requires t.Inner? && Wf(t, p)
    ensures k in Dict(t) <==>
            |k| > |Path(t, p)| && k[|Path(t, p)|] in t.kids && k in Dict(t.kids[k[|Path(t, p)|]])
    ensures k in Dict(t) ==> Dict(t)[k] == Dict(t.kids[k[|Path(t, p)|]])[k]
  {
    DictFromKid(t, p, 0, k);
  }

  lemma {:induction false} MinKeyInDict(t: Tree, p: seq<Byte>)
    requires Wf(t, p)
    ensures MinKey(t) in Dict(t)
    decreases t
  {
    if t.Inner? {
      var a := SomeKey(t.kids);
      var c := MinKeyFromIs(t, 0);
      MinKeyInDict(t.kids[c], Path(t, p) + [c]);
      DictFromSplit(t, 0, MinKey(t));
    }
  }

  /** If all children share the path `fp`, so does the leftmost key. */
  lemma MinKeyOnPath(t: Tree, fp: seq<Byte>)
    requires t.Inner? && |t.kids| >= 1
    requires forall b: Byte :: b in t.kids ==> Wf(t.kids[b], fp + [b])
    ensures fp < MinKey(t)
  {
    hide Wf;
    hide Dict;
    var a := SomeKey(t.kids);
    var c := MinKeyFromIs(t, 0);
    MinKeyExtends(t.kids[c], fp + [c]);
  }

  /** An inner node is well formed as soon as its children share one path `fp`: the leftmost key
      then spells that path. */
  lemma WfIntro(t: Tree, p: seq<Byte>, fp: seq<Byte>)
    requires t.Inner? && WfOn(t, p, fp)
    ensures Wf(t, p) && Path(t, p) == fp
  {
    hide MinKey;
    hide Dict;
    MinKeyOnPath(t, fp);
    assert MinKey(t)[..|fp|] == fp;
  }

  /** The bytes before the last one of a terminated key are not zero, so no key is a proper
      prefix of another. */
  lemma PrefixFree(a: seq<Byte>, b: seq<Byte>)
    requires IsKey(a) && IsKey(b) && a <= b
    ensures a == b
  {
    assert b[|a| - 1] == a[|a| - 1];
  }

  // ----- prefix comparison -----

  /** `check_prefix_partial`: how many of the first `limit` bytes of `stored` match the key. */
  function Matching(stored: seq<Byte>, k: seq<Byte>, d: nat, from: nat, limit: nat): (n: nat)
    requires from <= limit <= |stored| && d + limit <= |k|
    ensures from <= n <= limit
    ensures forall i :: from <= i < n ==> stored[i] == k[d + i]
    ensures n < limit ==> stored[n] != k[d + n]
    decreases limit - from
  {
    if from < limit && k[d + from] == stored[from] then Matching(stored, k, d, from + 1, limit) else from
  }

  /** The number of bytes the partial comparison looks at. */
  function PartialLimit(plen: nat, k: seq<Byte>, d: nat): nat
    requires d <= |k|
  {
    Min(Min(plen, MAX_PREFIX_LEN), |k| - d)
  }

  /** `check_prefix_partial`. */
  function CheckPrefixPartial(t: Tree, k: seq<Byte>, d: nat): nat
    requires t.Inner? && |t.stored| == Min(t.prefixLen, MAX_PREFIX_LEN) && d <= |k|
  {
    Matching(t.stored, k, d, 0, PartialLimit(t.prefixLen, k, d))
  }

  /** The first position from `i` on where two strings differ, or the end of the shorter one. */
  function Diverge(a: seq<Byte>, b: seq<Byte>, i: nat): (j: nat)
    requires i <= |a| && i <= |b|
    ensures i <= j <= |a| && j <= |b|
    ensures forall x :: i <= x < j ==> a[x] == b[x]
    ensures j < |a| && j < |b| ==> a[j] != b[j]
    decreases |a| - i
  {
    if i < |a| && i < |b| && a[i] == b[i] then Diverge(a, b, i + 1) else i
  }

  /** `check_prefix`: continues with the leftmost leaf when the stored bytes are used up. */
  function CheckPrefix(t: Tree, k: seq<Byte>, d: nat): nat
    requires t.Inner? && |t.stored| == Min(t.prefixLen, MAX_PREFIX_LEN) && d <= |k|
    requires d + Min(t.prefixLen, MAX_PREFIX_LEN) <= |MinKey(t)|
  {
    var len := CheckPrefixPartial(t, k, d);
    if len < MAX_PREFIX_LEN then len
    else Diverge(MinKey(t), k, d + len) - d
  }

  /** The stored bytes are the start of the shared path. */
  lemma StoredBytes(t: Tree, p: seq<Byte>)
    requires t.Inner? && Wf(t, p)
    ensures |t.stored| == Min(t.prefixLen, MAX_PREFIX_LEN) && |p| + t.prefixLen < |MinKey(t)| && p <= MinKey(t)
    ensures |t.stored| == if t.prefixLen < 10 then t.prefixLen else 10
    ensures forall i :: 0 <= i < |t.stored| ==> t.stored[i] == MinKey(t)[|p| + i]
  {
    hide MinKey;
    hide Dict;
    var fp := MinKey(t)[..|p| + t.prefixLen];
    assert t.stored == StoredPart(fp[|p|..]);
  }

  /** No key ends inside another: two keys that agree up to `n`, which one of them reaches past,
      both reach past it. */
  lemma KeyGoesOn(k: seq<Byte>, m: seq<Byte>, n: nat)
    requires IsKey(k) && IsKey(m) && n < |m| && n <= |k|
    requires forall i :: 0 <= i < n ==> k[i] == m[i]
    ensures n < |k|
  {
  }

  /** Comparing with stored bytes that are a slice of `m` compares with `m`. */
  lemma MatchingAgrees(stored: seq<Byte>, m: seq<Byte>, k: seq<Byte>, d: nat, limit: nat)
    requires limit <= |stored| && d + limit <= |k| && d + |stored| <= |m|
    requires k[..d] == m[..d]
    requires forall i :: 0 <= i < |stored| ==> stored[i] == m[d + i]
    ensures var n := Matching(stored, k, d, 0, limit);
            && (forall i :: 0 <= i < d + n ==> k[i] == m[i])
            && (n < limit ==> k[d + n] != m[d + n])
  {
    TakeEqual(k, m, d);
    var n := Matching(stored, k, d, 0, limit);
    forall i | d <= i < d + n ensures k[i] == m[i] {
      assert stored[i - d] == k[d + (i - d)];
    }
  }

  lemma DivergeAgrees(m: seq<Byte>, k: seq<Byte>, i: nat)
    requires i <= |m| && i <= |k| && forall x :: 0 <= x < i ==> k[x] == m[x]
    ensures var j := Diverge(m, k, i);
            && (forall x :: 0 <= x < j ==> k[x] == m[x])
            && (j < |m| && j < |k| ==> k[j] != m[j])
  {
  }

  /** The part of the key that `check_prefix` has accepted agrees with the leftmost key. */
  lemma CheckPrefixAgrees(t: Tree, p: seq<Byte>, k: seq<Byte>)
    requires p <= k && t.Inner? && Wf(t, p)
    ensures |t.stored| == Min(t.prefixLen, MAX_PREFIX_LEN) && |p| + t.prefixLen < |MinKey(t)|
    ensures var n := CheckPrefix(t, k, |p|); var m := MinKey(t);
            && |p| + n <= |k| && |p| + n <= |m|
            && (forall i :: 0 <= i < |p| + n ==> k[i] == m[i])
            && (n < t.prefixLen && |p| + n < |k| ==> k[|p| + n] != m[|p| + n])
  {
    hide Wf;
    hide MinKey;
    hide Dict;
    hide Diverge;
    StoredBytes(t, p);
    var d := |p|;
    MatchingAgrees(t.stored, MinKey(t), k, d, PartialLimit(t.prefixLen, k, d));
    var len := CheckPrefixPartial(t, k, d);
    if len >= MAX_PREFIX_LEN {
      DivergeAgrees(MinKey(t), k, d + len);
    }
  }

  /** What `check_prefix` decides: whether the key leaves the full compressed path, and where. */
  lemma CheckPrefixMeaning(t: Tree, p: seq<Byte>, k: seq<Byte>)
    requires IsKey(k) && p <= k && t.Inner? && Wf(t, p)
    ensures |t.stored| == Min(t.prefixLen, MAX_PREFIX_LEN) && |p| + t.prefixLen < |MinKey(t)|
    ensures var d := |p|; var n := CheckPrefix(t, k, d); var fp := Path(t, p);
            && d + n <= |k| && |fp| == d + t.prefixLen
            && (n < t.prefixLen ==> d + n < |k| && k[..d + n] == fp[..d + n] && k[d + n] != fp[d + n])
            && (n >= t.prefixLen ==> d + t.prefixLen < |k| && fp == k[..d + t.prefixLen])
  {
    hide Wf;
    hide MinKey;
    hide CheckPrefix;
    CheckPrefixAgrees(t, p, k);
    MinKeyExtends(t, p);
    var m := MinKey(t);
    var d := |p|;
    var c := Min(CheckPrefix(t, k, d), t.prefixLen);
    KeyGoesOn(k, m, d + c);
    TakeEqual(k, m, d + c);
    assert m[..d + t.prefixLen][..d + c] == m[..d + c];
  }
}
