// Base64 (utils.c, by way of OpenSSL): the encoding of section 4 of RFC 4648, and its inverse.

module Base64 {
  import opened Bytes

  const PAD: Byte := 61

  /** The character for six bits. */
  function Digit(i: int): (c: Byte)
    requires 0 <= i < 64
    ensures c != PAD && c != 44 && c != 0
    ensures Bits(c) == Some(i)
  {
    if i < 26 then 65 + i
    else if i < 52 then 71 + i
    else if i < 62 then i - 4
    else if i == 62 then 43 else 47
  }

  /** The six bits for a character. */
  function Bits(c: Byte): (r: Option<int>)
    ensures r.Some? ==> 0 <= r.value < 64
  {
    if 65 <= c <= 90 then Some(c - 65)
    else if 97 <= c <= 122 then Some(c - 71)
    else if 48 <= c <= 57 then Some(c + 4)
    else if c == 43 then Some(62)
    else if c == 47 then Some(63)
    else None
  }

  /** `pgvictoria_base64_encode` */
  function Encode(s: seq<Byte>): (r: seq<Byte>)
    ensures |r| == 4 * ((|s| + 2) / 3)
    ensures forall i :: 0 <= i < |r| ==> r[i] != 44 && r[i] != 0
  {
    if s == [] then []
    else if |s| == 1 then [Digit(s[0] / 4), Digit(s[0] % 4 * 16), PAD, PAD]
    else if |s| == 2 then [Digit(s[0] / 4), Digit(s[0] % 4 * 16 + s[1] / 16), Digit(s[1] % 16 * 4), PAD]
    else Group(s[0], s[1], s[2]) + Encode(s[3..])
  }

  function Group(a: Byte, b: Byte, c: Byte): (r: seq<Byte>)
    ensures |r| == 4 && forall i :: 0 <= i < 4 ==> r[i] != 44 && r[i] != 0
  {
    [Digit(a / 4), Digit(a % 4 * 16 + b / 16), Digit(b % 16 * 4 + c / 64), Digit(c % 64)]
  }

  /** `pgvictoria_base64_decode`, as far as the text is in groups of four. */
  function Decode(t: seq<Byte>): seq<Byte> {
    if |t| < 4 || Bits(t[0]).None? || Bits(t[1]).None? then []
    else
      var a := Bits(t[0]).value * 4 + Bits(t[1]).value / 16;
      if Bits(t[2]).None? then [a]
      else
        var b := Bits(t[1]).value % 16 * 16 + Bits(t[2]).value / 4;
        if Bits(t[3]).None? then [a, b]
        else [a, b, Bits(t[2]).value % 4 * 64 + Bits(t[3]).value] + Decode(t[4..])
  }

  lemma DecodeGroup(a: Byte, b: Byte, c: Byte, t: seq<Byte>)
    ensures Decode(Group(a, b, c) + t) == [a, b, c] + Decode(t)
  {
    hide Bits;
    hide Digit;
    assert (Group(a, b, c) + t)[4..] == t;
  }

  lemma PadHasNoBits()
    ensures Bits(PAD) == None
  {
  }

  /** Decoding gives back what was encoded. */
  lemma {:induction false} DecodeEncode(s: seq<Byte>)
    ensures Decode(Encode(s)) == s
  {
    hide Bits;
    hide Digit;
    PadHasNoBits();
    if |s| > 2 {
      DecodeEncode(s[3..]);
      DecodeGroup(s[0], s[1], s[2], Encode(s[3..]));
      hide Decode;
      assert s == [s[0], s[1], s[2]] + s[3..];
    }
  }

  // ----- section 4 of RFC 4648 -----

  /** Table 1, in its four parts. */
  const UPPER: string := "ABCDEFGHIJKLMNOPQRSTUVWXYZ"
  const LOWER: string := "abcdefghijklmnopqrstuvwxyz"
  const NUMERALS: string := "0123456789"
  const SIGNS: string := "+/"

  /** The character for six bits is the one in the table. */
  lemma DigitIsInTable(i: int)
    requires 0 <= i < 64
    ensures |UPPER| == |LOWER| == 26 && |NUMERALS| == 10 && |SIGNS| == 2
    ensures Digit(i) as char ==
            if i < 26 then UPPER[i] else if i < 52 then LOWER[i - 26] else if i < 62 then NUMERALS[i - 52] else SIGNS[i - 62]
  {
    if i < 26 {
      assert UPPER[i] as int == 65 + i;
    } else if i < 52 {
      assert LOWER[i - 26] as int == 97 + (i - 26);
    } else if i < 62 {
      assert NUMERALS[i - 52] as int == 48 + (i - 52);
    }
  }

  /** The number that digits of six bits stand for. */
  function NumberOf(ds: seq<int>): int {
    if ds == [] then 0 else NumberOf(ds[..|ds| - 1]) * 64 + ds[|ds| - 1]
  }

  /** The digits of a text are the characters of some numbers below 64. */
  ghost predicate Writes(ds: seq<int>, t: seq<Byte>) {
    |t| == |ds| && forall i :: 0 <= i < |ds| ==> 0 <= ds[i] < 64 && t[i] == Digit(ds[i])
  }

  /** The encoding: three bytes are a number of 24 bits, written in four digits of six bits; two bytes
      are padded to 18 bits and one byte to 12, and "=" stands for each missing digit. */
  lemma EncodeIs(s: seq<Byte>) returns (ds: seq<int>)
    requires s != []
    ensures |s| == 1 ==> |ds| == 2 && NumberOf(ds) == s[0] as int * 16 && Writes(ds, Encode(s)[..2]) && Encode(s)[2..] == [61, 61]
    ensures |s| == 2 ==> |ds| == 3 && NumberOf(ds) == (s[0] as int * 256 + s[1]) * 4 && Writes(ds, Encode(s)[..3]) && Encode(s)[3..] == [61]
    ensures |s| >= 3 ==> |ds| == 4 && NumberOf(ds) == s[0] as int * 65536 + s[1] as int * 256 + s[2]
                         && Writes(ds, Encode(s)[..4]) && Encode(s)[4..] == Encode(s[3..])
  {
    if |s| == 1 {
      ds := EncodeOne(s);
    } else if |s| == 2 {
      ds := EncodeTwo(s);
    } else {
      ds := EncodeThree(s);
    }
    hide *;
  }

  lemma EncodeOne(s: seq<Byte>) returns (ds: seq<int>)
    requires |s| == 1
    ensures |ds| == 2 && NumberOf(ds) == s[0] as int * 16 && Writes(ds, Encode(s)[..2]) && Encode(s)[2..] == [61, 61]
  {
    hide Digit;
    ds := [s[0] / 4, s[0] % 4 * 16];
    NumberOfDigits(ds);
  }

  lemma EncodeTwo(s: seq<Byte>) returns (ds: seq<int>)
    requires |s| == 2
    ensures |ds| == 3 && NumberOf(ds) == (s[0] as int * 256 + s[1]) * 4 && Writes(ds, Encode(s)[..3]) && Encode(s)[3..] == [61]
  {
    hide Digit;
    ds := [s[0] / 4, s[0] % 4 * 16 + s[1] / 16, s[1] % 16 * 4];
    NumberOfDigits(ds);
  }

  lemma EncodeThree(s: seq<Byte>) returns (ds: seq<int>)
    requires |s| >= 3
    ensures |ds| == 4 && NumberOf(ds) == s[0] as int * 65536 + s[1] as int * 256 + s[2]
    ensures Writes(ds, Encode(s)[..4]) && Encode(s)[4..] == Encode(s[3..])
  {
    hide Digit;
    ds := GroupDigits(s[0], s[1], s[2]);
    assert Encode(s) == Group(s[0], s[1], s[2]) + Encode(s[3..]);
    hide Encode;
    hide Group;
    hide Writes;
    assert Encode(s)[..4] == Group(s[0], s[1], s[2]);
  }

  lemma GroupDigits(a: Byte, b: Byte, c: Byte) returns (ds: seq<int>)
    ensures |ds| == 4 && NumberOf(ds) == a as int * 65536 + b as int * 256 + c && Writes(ds, Group(a, b, c))
  {
    hide Digit;
    ds := [a / 4, a % 4 * 16 + b / 16, b % 16 * 4 + c / 64, c % 64];
    NumberOfDigits(ds);
  }

  lemma NumberOfStep(ds: seq<int>, d: int)
    ensures NumberOf(ds + [d]) == NumberOf(ds) * 64 + d
  {
    assert (ds + [d])[..|ds|] == ds;
  }

  lemma NumberOfDigits(ds: seq<int>)
    ensures |ds| == 2 ==> NumberOf(ds) == ds[0] * 64 + ds[1]
    ensures |ds| == 3 ==> NumberOf(ds) == (ds[0] * 64 + ds[1]) * 64 + ds[2]
    ensures |ds| == 4 ==> NumberOf(ds) == ((ds[0] * 64 + ds[1]) * 64 + ds[2]) * 64 + ds[3]
  {
    if |ds| >= 2 {
      NumberOfStep([], ds[0]);
      NumberOfStep([ds[0]], ds[1]);
      assert [] + [ds[0]] == [ds[0]] && [ds[0]] + [ds[1]] == ds[..2];
    }
    if |ds| >= 3 {
      NumberOfStep(ds[..2], ds[2]);
      assert ds[..2] + [ds[2]] == ds[..3];
    }
    if |ds| >= 4 {
      NumberOfStep(ds[..3], ds[3]);
      assert ds[..3] + [ds[3]] == ds[..4];
    }
    assert |ds| > 0 ==> ds[..|ds|] == ds;
  }
}
