// UTF-8 (utf8.c): the validator and the counter, against the encoding of section 3 of RFC 3629. A
// buffer is valid exactly if it encodes a sequence of Unicode scalar values; that sequence is the only
// one, and the counter gives its length.

module Utf8 {
  import opened Bytes

  type Octets = seq<Byte>

  /** Unicode scalar values: no surrogates, nothing above U+10FFFF. */
  predicate IsScalar(c: int) {
    0 <= c < 0xD800 || 0xE000 <= c <= 0x10FFFF
  }

  type Scalar = c: int | 0 <= c < 0xD800 || 0xE000 <= c <= 0x10FFFF

  // ----- the encoding -----

  /** A continuation byte with the six lowest bits of a number. */
  function Tail(x: nat): Byte {
    0x80 + x % 0x40
  }

  function Encode(c: Scalar): (e: Octets)
    ensures 1 <= |e| <= 4
  {
    if c < 0x80 then One(c)
    else if c < 0x800 then Two(c / 0x40, c)
    else if c < 0x1_0000 then Three(c / 0x40 / 0x40, c / 0x40, c)
    else Four(c / 0x40 / 0x40 / 0x40, c / 0x40 / 0x40, c / 0x40, c)
  }

  function One(c: Byte): Octets { [c] }

  function Two(x: nat, c: nat): Octets
    requires x < 0x20
  {
    [0xC0 + x as Byte, Tail(c)]
  }

  function Three(x: nat, y: nat, c: nat): Octets
    requires x < 0x10
  {
    [0xE0 + x as Byte, Tail(y), Tail(c)]
  }

  function Four(x: nat, y: nat, z: nat, c: nat): Octets
    requires x < 0x8
  {
    [0xF0 + x as Byte, Tail(y), Tail(z), Tail(c)]
  }

  function EncodeAll(cs: seq<Scalar>): Octets {
    if cs == [] then [] else Encode(cs[0]) + EncodeAll(cs[1..])
  }

  // ----- the code -----

  /** `pgvictoria_utf8_sequence_length`: the masks test the leading bits. */
  function SequenceLength(b: Byte): (n: int)
    ensures n == -1 || 1 <= n <= 4
  {
    if b < 0x80 then 1
    else if b / 0x20 == 0x6 then 2
    else if b / 0x10 == 0xE then 3
    else if b / 0x8 == 0x1E then 4
    else -1
  }

  predicate Continues(a: Byte) {
    0x80 <= a <= 0xBF
  }

  /** The second byte, which the first one may restrict further. */
  predicate SecondValid(first: Byte, a: Byte) {
    if first == 0xE0 then 0xA0 <= a <= 0xBF
    else if first == 0xED then 0x80 <= a <= 0x9F
    else if first == 0xF0 then 0x90 <= a <= 0xBF
    else if first == 0xF4 then 0x80 <= a <= 0x8F
    else Continues(a)
  }

  /** `pgvictoria_utf8_sequence_valid`: the cases fall through from the last byte to the first. */
  predicate SequenceValid(s: Octets, length: nat)
    requires length <= |s|
  {
    && 1 <= length <= 4
    && (length >= 4 ==> Continues(s[3]))
    && (length >= 3 ==> Continues(s[2]))
    && (length >= 2 ==> SecondValid(s[0], s[1]))
    && !(0x80 <= s[0] < 0xC2) && s[0] <= 0xF4
  }

  /** The buffer begins with a sequence that the loops accept. */
  predicate StartsWell(s: Octets) {
    s != [] && SequenceLength(s[0]) >= 0 && SequenceLength(s[0]) <= |s| && SequenceValid(s, SequenceLength(s[0]))
  }

  /** A number with the six bits of a continuation byte appended. */
  function Join(x: nat, a: Byte): nat {
    x * 0x40 + a % 0x40
  }

  /** The value of an accepted sequence. */
  function Decode(s: Octets): nat
    requires StartsWell(s)
  {
    var n := SequenceLength(s[0]);
    if n == 1 then s[0]
    else if n == 2 then Join(s[0] % 0x20, s[1])
    else if n == 3 then Join(Join(s[0] % 0x10, s[1]), s[2])
    else Join(Join(Join(s[0] % 0x8, s[1]), s[2]), s[3])
  }

  lemma JoinTail(x: nat, a: Byte)
    requires Continues(a)
    ensures Join(x, a) / 0x40 == x && Tail(Join(x, a)) == a && Join(x, a) == x * 0x40 + (a as int - 0x80)
  {
  }

  lemma TailJoin(c: nat)
    ensures Join(c / 0x40, Tail(c)) == c && Continues(Tail(c))
  {
  }

  /** An accepted sequence is the encoding of a scalar value. */
  lemma AcceptedIsEncoding(s: Octets)
    requires StartsWell(s)
    ensures IsScalar(Decode(s)) && s[..SequenceLength(s[0])] == Encode(Decode(s))
  {
    var n := SequenceLength(s[0]);
    if n == 2 {
      AcceptedTwo(s[0], s[1]);
    } else if n == 3 {
      AcceptedThree(s[0], s[1], s[2]);
    } else if n == 4 {
      AcceptedFour(s[0], s[1], s[2], s[3]);
    }
    hide Encode;
    hide Join;
    hide Tail;
    assert n == 2 ==> s[..n] == [s[0], s[1]];
    assert n == 3 ==> s[..n] == [s[0], s[1], s[2]];
    assert n == 4 ==> s[..n] == [s[0], s[1], s[2], s[3]];
  }

  lemma AcceptedTwo(a: Byte, b: Byte)
    requires 0xC2 <= a <= 0xDF && SecondValid(a, b)
    ensures var c := Join(a % 0x20, b); IsScalar(c) && Encode(c) == [a, b]
  {
    JoinTail(a % 0x20, b);
  }

  lemma AcceptedThree(a: Byte, b: Byte, d: Byte)
    requires 0xE0 <= a <= 0xEF && SecondValid(a, b) && Continues(d)
    ensures var c := Join(Join(a % 0x10, b), d); IsScalar(c) && Encode(c) == [a, b, d]
  {
    hide Join;
    hide Tail;
    var x := Join(a % 0x10, b);
    JoinTail(a % 0x10, b);
    JoinTail(x, d);
    assert a % 0x10 == a as int - 0xE0;
    assert 0x20 <= x < 0x400;
    assert 0x800 <= Join(x, d) < 0x1_0000;
  }

  lemma AcceptedFour(a: Byte, b: Byte, d: Byte, e: Byte)
    requires 0xF0 <= a <= 0xF4 && SecondValid(a, b) && Continues(d) && Continues(e)
    ensures var c := Join(Join(Join(a % 0x8, b), d), e); IsScalar(c) && Encode(c) == [a, b, d, e]
  {
    hide Join;
    hide Tail;
    var x := Join(a % 0x8, b);
    var y := Join(x, d);
    JoinTail(a % 0x8, b);
    JoinTail(x, d);
    JoinTail(y, e);
    assert a % 0x8 == a as int - 0xF0;
    assert 0x10 <= x <= 0x10F;
    assert 0x1_0000 <= Join(y, e) <= 0x10_FFFF;
  }

  /** The encoding of a scalar value is accepted, whatever follows, and decoded to that value. */
  lemma EncodingIsAccepted(c: Scalar, t: Octets)
    ensures var s := Encode(c) + t;
            StartsWell(s) && SequenceLength(s[0]) == |Encode(c)| && Decode(s) == c
  {
    if 0x80 <= c < 0x800 {
      EncodedTwo(c, t);
    } else if 0x800 <= c < 0x1_0000 {
      EncodedThree(c, t);
    } else if c >= 0x1_0000 {
      EncodedFour(c, t);
    }
  }

  lemma EncodedTwo(c: Scalar, t: Octets)
    requires 0x80 <= c < 0x800
    ensures var s := Encode(c) + t; StartsWell(s) && SequenceLength(s[0]) == 2 && Decode(s) == c && |Encode(c)| == 2
  {
    TailJoin(c);
    hide Tail;
    hide Join;
  }

  lemma EncodedThree(c: Scalar, t: Octets)
    requires 0x800 <= c < 0x1_0000
    ensures var s := Encode(c) + t; StartsWell(s) && SequenceLength(s[0]) == 3 && Decode(s) == c && |Encode(c)| == 3
  {
    TailJoin(c);
    TailJoin(c / 0x40);
    SecondOfThree(c);
    hide Tail;
    hide Join;
    hide IsScalar;
  }

  lemma SecondOfThree(c: Scalar)
    requires 0x800 <= c < 0x1_0000
    ensures c / 0x40 / 0x40 < 0x10 && SecondValid(0xE0 + c / 0x40 / 0x40, Tail(c / 0x40))
  {
  }

  lemma EncodedFour(c: Scalar, t: Octets)
    requires c >= 0x1_0000
    ensures var s := Encode(c) + t; StartsWell(s) && SequenceLength(s[0]) == 4 && Decode(s) == c && |Encode(c)| == 4
  {
    TailJoin(c);
    TailJoin(c / 0x40);
    TailJoin(c / 0x40 / 0x40);
    SecondOfFour(c);
    hide Tail;
    hide Join;
    hide IsScalar;
  }

  lemma SecondOfFour(c: Scalar)
    requires c >= 0x1_0000
    ensures c / 0x40 / 0x40 / 0x40 <= 4 && SecondValid(0xF0 + c / 0x40 / 0x40 / 0x40, Tail(c / 0x40 / 0x40))
  {
  }

  /** The scalar values of a buffer, if the loops accept it. */
  function Scalars(s: Octets): Option<seq<Scalar>>
    decreases |s|
  {
    if s == [] then Some([])
    else if !StartsWell(s) then None
    else
      AcceptedIsEncoding(s);
      var rest := Scalars(s[SequenceLength(s[0])..]);
      if rest.None? then None else Some([Decode(s)] + rest.value)
  }

  /** The scalar values of an accepted buffer encode it. */
  lemma {:induction false} ScalarsEncode(s: Octets)
    requires Scalars(s).Some?
    ensures EncodeAll(Scalars(s).value) == s
    decreases |s|
  {
    hide Encode;
    hide Decode;
    hide SequenceValid;
    if s != [] {
      var n := SequenceLength(s[0]);
      AcceptedIsEncoding(s);
      ScalarsEncode(s[n..]);
      assert s == s[..n] + s[n..];
    }
  }

  /** Every sequence of scalar values is read back from its encoding. */
  lemma {:induction false} EncodingScalars(cs: seq<Scalar>)
    ensures Scalars(EncodeAll(cs)) == Some(cs)
    decreases |cs|
  {
    hide Encode;
    hide Decode;
    hide StartsWell;
    hide SequenceLength;
    if cs != [] {
      EncodingScalars(cs[1..]);
      EncodingIsAccepted(cs[0], EncodeAll(cs[1..]));
      assert EncodeAll(cs)[|Encode(cs[0])|..] == EncodeAll(cs[1..]);
      assert cs == [cs[0]] + cs[1..];
    }
  }

  // ----- the loops -----

  /** `pgvictoria_utf8_valid` */
  method Valid(buf: Octets) returns (ok: bool)
    ensures ok <==> Scalars(buf).Some?
  {
    hide StartsWell;
    var i := 0;
    assert buf[0..] == buf;
    while i < |buf|
      invariant 0 <= i <= |buf| && (Scalars(buf).Some? <==> Scalars(buf[i..]).Some?)
    {
      LoopStep(buf, i);
      var length := SequenceLength(buf[i]);
      if length < 0 {
        return false;
      }
      if i + length > |buf| {
        return false;
      }
      if !SequenceValid(buf[i..], length) {
        return false;
      }
      i := i + length;
    }
    return true;
  }

  /** `pgvictoria_utf8_char_length`: the number of characters, or none for the error value. */
  method CharLength(buf: Octets) returns (r: Option<nat>)
    ensures r == match Scalars(buf) case None => None case Some(cs) => Some(|cs|)
  {
    hide StartsWell;
    var i, count := 0, 0;
    assert buf[0..] == buf;
    while i < |buf|
      invariant 0 <= i <= |buf| && (Scalars(buf).Some? <==> Scalars(buf[i..]).Some?)
      invariant Scalars(buf).Some? ==> count + |Scalars(buf[i..]).value| == |Scalars(buf).value|
    {
      LoopStep(buf, i);
      var length := SequenceLength(buf[i]);
      if length < 0 {
        return None;
      }
      if i + length > |buf| {
        return None;
      }
      if !SequenceValid(buf[i..], length) {
        return None;
      }
      i, count := i + length, count + 1;
    }
    return Some(count);
  }

  lemma LoopStep(buf: Octets, i: nat)
    requires i < |buf|
    ensures var n := SequenceLength(buf[i]);
            && (StartsWell(buf[i..]) <==> n >= 0 && i + n <= |buf| && SequenceValid(buf[i..], n))
            && (Scalars(buf[i..]).Some? <==> StartsWell(buf[i..]) && Scalars(buf[i + n..]).Some?)
            && (Scalars(buf[i..]).Some? ==> |Scalars(buf[i..]).value| == 1 + |Scalars(buf[i + n..]).value|)
  {
    var n := SequenceLength(buf[i]);
    if n >= 0 && i + n <= |buf| {
      assert buf[i..][n..] == buf[i + n..];
    }
  }

  /** `pgvictoria_is_ascii` */
  method IsAscii(str: Octets) returns (ok: bool)
    ensures ok <==> forall i :: 0 <= i < |str| ==> str[i] < 0x80
  {
    for i := 0 to |str|
      invariant forall k :: 0 <= k < i ==> str[k] < 0x80
    {
      if str[i] > 127 {
        return false;
      }
    }
    return true;
  }

  // ----- what they mean -----

  ghost predicate EncodesScalars(s: Octets) {
    exists cs: seq<Scalar> :: EncodeAll(cs) == s
  }

  /** A buffer is valid exactly if it encodes some scalar values. */
  lemma ValidIsEncoding(s: Octets)
    ensures Scalars(s).Some? <==> EncodesScalars(s)
  {
    hide Scalars;
    hide EncodeAll;
    if Scalars(s).Some? {
      ScalarsEncode(s);
    }
    if EncodesScalars(s) {
      var cs: seq<Scalar> :| EncodeAll(cs) == s;
      EncodingScalars(cs);
    }
  }

  /** It encodes one sequence only. */
  lemma EncodingIsInjective(cs: seq<Scalar>, ds: seq<Scalar>)
    ensures EncodeAll(cs) == EncodeAll(ds) <==> cs == ds
  {
    hide Scalars;
    hide EncodeAll;
    EncodingScalars(cs);
    EncodingScalars(ds);
  }

  lemma {:induction false} EncodeAppend(cs: seq<Scalar>, ds: seq<Scalar>)
    ensures EncodeAll(cs + ds) == EncodeAll(cs) + EncodeAll(ds)
    decreases |cs|
  {
    hide Encode;
    if cs == [] {
      assert cs + ds == ds;
    } else {
      assert (cs + ds)[1..] == cs[1..] + ds;
      EncodeAppend(cs[1..], ds);
    }
  }

  /** After a valid buffer, the validity and the number of characters of what follows decide. */
  lemma {:induction false} Concatenation(a: Octets, b: Octets)
    requires Scalars(a).Some?
    ensures Scalars(a + b) == if Scalars(b).None? then None else Some(Scalars(a).value + Scalars(b).value)
    decreases |a|
  {
    if a == [] {
      assert a + b == b;
      assert Scalars(b).Some? ==> [] + Scalars(b).value == Scalars(b).value;
    } else {
      hide *;
      var c, n := FirstScalar(a);
      SamePrefix(a, b);
      var d, m := FirstScalar(a + b);
      DropFirst(a, b, n);
      Concatenation(a[n..], b);
      if Scalars(b).Some? {
        Associates([c], Scalars(a[n..]).value, Scalars(b).value);
      }
    }
  }

  lemma DropFirst(a: Octets, b: Octets, n: nat)
    requires n <= |a|
    ensures (a + b)[n..] == a[n..] + b
  {
  }

  lemma Associates(a: seq<Scalar>, b: seq<Scalar>, c: seq<Scalar>)
    ensures a + (b + c) == a + b + c
  {
  }

  /** The first scalar value of a buffer and the number of bytes that encode it. */
  lemma FirstScalar(s: Octets) returns (c: Scalar, n: nat)
    requires (Scalars(s).Some? && s != []) || StartsWell(s)
    ensures StartsWell(s) && c == Decode(s) && n == SequenceLength(s[0]) && 0 < n <= |s|
    ensures Scalars(s) == var rest := Scalars(s[n..]); if rest.None? then None else Some([c] + rest.value)
  {
    hide Decode;
    hide SequenceValid;
    AcceptedIsEncoding(s);
    c, n := Decode(s), SequenceLength(s[0]);
  }

  /** What a buffer begins with does not depend on what comes later. */
  lemma SamePrefix(a: Octets, b: Octets)
    requires StartsWell(a)
    ensures StartsWell(a + b) && Decode(a + b) == Decode(a) && (a + b)[0] == a[0]
  {
  }

  /** An ASCII buffer is valid and has a character for every byte. */
  lemma {:induction false} AsciiCounts(s: Octets)
    requires forall i :: 0 <= i < |s| ==> s[i] < 0x80
    ensures Scalars(s).Some? && |Scalars(s).value| == |s|
    decreases |s|
  {
    if s != [] {
      AsciiCounts(s[1..]);
    }
  }
}
