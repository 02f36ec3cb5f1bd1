// The messages of a SCRAM exchange: the builders of message.c, which write pieces at computed offsets,
// and the reader of attributes in security.c.

module ScramMessages {
  import opened Bytes
  import opened Scram
  import opened Wire

  const EQUALS: Byte := 61

  // ----- writing -----

  /** A message whose first bytes have been written; the others are zero. */
  ghost predicate Filled(a: array<Byte>, done: Octets)
    reads a
  {
    && |done| <= a.Length
    && (forall i :: 0 <= i < |done| ==> a[i] == done[i])
    && (forall i :: |done| <= i < a.Length ==> a[i] == 0)
  }

  /** `allocate_message` */
  method Allocate(size: nat) returns (a: array<Byte>)
    ensures fresh(a) && a.Length == size && Filled(a, [])
  {
    a := new Byte[size](_ => 0);
  }

  /** `pgvictoria_write_string` and its like, at an offset of the data. */
  method Write(a: array<Byte>, off: nat, s: Octets, ghost done: Octets)
    requires Filled(a, done) && off == |done| && off + |s| <= a.Length
    modifies a
    ensures Filled(a, done + s)
  {
    forall i | 0 <= i < |s| {
      a[off + i] := s[i];
    }
  }

  const FOUR_ZEROS: Octets := [0, 0, 0, 0]

  /** Going on after four bytes that are left zero. */
  lemma Gap(a: array<Byte>, done: Octets)
    requires Filled(a, done) && |done| + 4 <= a.Length
    ensures Filled(a, done + FOUR_ZEROS)
  {
  }

  lemma Complete(a: array<Byte>, done: Octets)
    requires Filled(a, done) && |done| == a.Length
    ensures a[..] == done
  {
  }

  /** The pieces that `pgvictoria_create_auth_scram256_response` writes. The four bytes after the
      mechanism name stay zero, and the next piece begins with a space. */
  function ResponseText(nonce: Octets): Octets {
    Ascii("p") + Int32(30 + |nonce|) + Ascii("SCRAM-SHA-256") + FOUR_ZEROS + Ascii(" n,,n=,r=") + nonce
  }

  /** `pgvictoria_create_auth_scram256_response` */
  method CreateResponse(nonce: Octets) returns (data: array<Byte>)
    ensures fresh(data) && data[..] == ResponseText(nonce)
  {
    hide Ascii;
    hide Int32;
    hide Filled;
    var size := 1 + 4 + 13 + 4 + 9 + |nonce|;
    data := Allocate(size);
    ghost var done: Octets := [];
    Write(data, 0, Ascii("p"), done);
    done := done + Ascii("p");
    Write(data, 1, Int32(size - 1), done);
    done := done + Int32(size - 1);
    Write(data, 5, Ascii("SCRAM-SHA-256"), done);
    done := done + Ascii("SCRAM-SHA-256");
    Gap(data, done);
    done := done + FOUR_ZEROS;
    Write(data, 22, Ascii(" n,,n=,r="), done);
    done := done + Ascii(" n,,n=,r=");
    Write(data, 31, nonce, done);
    done := done + nonce;
    Complete(data, done);
    assert [] + Ascii("p") == Ascii("p");
  }

  /** The message is the SASLInitialResponse of the protocol, with the mechanism as a C string and the
      length of the response before it, exactly when the nonce has 24 characters: then the space is
      the length. */
  lemma ResponseIsInitialResponse(nonce: Octets)
    ensures ResponseText(nonce) == InitialResponse(nonce) <==> |nonce| % 0x1_0000_0000 == 24
  {
    hide Int32;
    hide Ascii;
    var p := Ascii("p") + Int32(30 + |nonce|) + Ascii("SCRAM-SHA-256");
    var t := Ascii("n,,n=,r=") + nonce;
    SpaceIsLength();
    Int32Is(8 + |nonce|);
    assert ResponseText(nonce) == p + (FOUR_ZEROS + Ascii(" n,,n=,r=")) + nonce;
    assert ResponseText(nonce) == (p + [0]) + [0, 0, 0, 32] + t;
    assert InitialResponse(nonce) == (p + [0]) + Int32(8 + |nonce|) + t;
    Cancel(p + [0], [0, 0, 0, 32], Int32(8 + |nonce|), t);
  }

  /** A SASLInitialResponse: the mechanism as a C string, the length of the response, the response. */
  function InitialResponse(nonce: Octets): Octets {
    Ascii("p") + Int32(30 + |nonce|) + (Ascii("SCRAM-SHA-256") + [0]) + Int32(8 + |nonce|) + (Ascii("n,,n=,r=") + nonce)
  }

  lemma SpaceIsLength()
    ensures FOUR_ZEROS + Ascii(" n,,n=,r=") == [0] + [0, 0, 0, 32] + Ascii("n,,n=,r=")
  {
  }

  lemma Int32Is(n: nat)
    ensures Int32(n) == [0, 0, 0, 32] <==> n % 0x1_0000_0000 == 32
  {
    ReadWritten(n);
    var s := Int32(n);
    hide Int32;
    assert ReadInt32(s, 0) == 32 <==> s[0] == 0 && s[1] == 0 && s[2] == 0 && s[3] == 32;
  }

  lemma Cancel(p: Octets, x: Octets, y: Octets, t: Octets)
    requires |x| == |y|
    ensures p + x + t == p + y + t <==> x == y
  {
    if p + x + t == p + y + t {
      forall i | 0 <= i < |x| ensures x[i] == y[i] {
        assert (p + x + t)[|p| + i] == x[i] && (p + y + t)[|p| + i] == y[i];
      }
    }
  }

  /** The client-first-message-bare begins at offset 26. */
  lemma ResponseBare(nonce: Octets)
    ensures |ResponseText(nonce)| >= 26 && ResponseText(nonce)[26..] == Ascii("n=,r=") + nonce
  {
  }

  // ----- the other messages -----

  /** `"r=%s%s,s=%s,i=4096"` */
  function ServerFirst(cn: Octets, sn: Octets, salt: Octets): Octets {
    Ascii("r=") + cn + sn + Ascii(",s=") + salt + Ascii(",i=4096")
  }

  function ContinueText(cn: Octets, sn: Octets, salt: Octets): Octets {
    Ascii("R") + Int32(20 + |cn| + |sn| + |salt|) + Int32(11) +
    Ascii("r=") + cn + sn + Ascii(",s=") + salt + Ascii(",i=4096")
  }

  /** `pgvictoria_create_auth_scram256_continue` */
  method CreateContinue(cn: Octets, sn: Octets, salt: Octets) returns (data: array<Byte>)
    ensures fresh(data) && data[..] == ContinueText(cn, sn, salt)
  {
    hide Ascii;
    hide Int32;
    hide Filled;
    var size := 1 + 4 + 4 + 2 + |cn| + |sn| + 3 + |salt| + 7;
    data := Allocate(size);
    ghost var done: Octets := [];
    Write(data, 0, Ascii("R"), done);
    done := done + Ascii("R");
    Write(data, 1, Int32(size - 1), done);
    done := done + Int32(size - 1);
    Write(data, 5, Int32(11), done);
    done := done + Int32(11);
    Write(data, 9, Ascii("r="), done);
    done := done + Ascii("r=");
    Write(data, 11, cn, done);
    done := done + cn;
    Write(data, 11 + |cn|, sn, done);
    done := done + sn;
    Write(data, 11 + |cn| + |sn|, Ascii(",s="), done);
    done := done + Ascii(",s=");
    Write(data, 11 + |cn| + |sn| + 3, salt, done);
    done := done + salt;
    Write(data, 11 + |cn| + |sn| + 3 + |salt|, Ascii(",i=4096"), done);
    done := done + Ascii(",i=4096");
    Complete(data, done);
    assert [] + Ascii("R") == Ascii("R");
  }

  /** The server-first-message begins at offset 9. */
  lemma ContinueFirst(cn: Octets, sn: Octets, salt: Octets)
    ensures |ContinueText(cn, sn, salt)| >= 9 && ContinueText(cn, sn, salt)[0] == 82
    ensures ContinueText(cn, sn, salt)[9..] == ServerFirst(cn, sn, salt)
  {
    hide Int32;
    var h := Ascii("R") + Int32(20 + |cn| + |sn| + |salt|) + Int32(11);
    AfterHeader(h, Ascii("r="), cn, sn, Ascii(",s="), salt, Ascii(",i=4096"));
    assert h[0] == Ascii("R")[0];
  }

  lemma AfterHeader(h: Octets, a: Octets, b: Octets, c: Octets, d: Octets, e: Octets, f: Octets)
    ensures h + a + b + c + d + e + f == h + (a + b + c + d + e + f)
    ensures (h + a + b + c + d + e + f)[|h|..] == a + b + c + d + e + f
  {
    Assoc(h, a, b);
    Assoc(h, a + b, c);
    Assoc(h, a + b + c, d);
    Assoc(h, a + b + c + d, e);
    Assoc(h, a + b + c + d + e, f);
  }

  function ContinueResponseText(wp: Octets, p: Octets): Octets {
    Ascii("p") + Int32(7 + |wp| + |p|) + wp + Ascii(",p=") + p
  }

  /** `pgvictoria_create_auth_scram256_continue_response` */
  method CreateContinueResponse(wp: Octets, p: Octets) returns (data: array<Byte>)
    ensures fresh(data) && data[..] == ContinueResponseText(wp, p)
  {
    hide Ascii;
    hide Int32;
    hide Filled;
    var size := 1 + 4 + |wp| + 3 + |p|;
    data := Allocate(size);
    ghost var done: Octets := [];
    Write(data, 0, Ascii("p"), done);
    done := done + Ascii("p");
    Write(data, 1, Int32(size - 1), done);
    done := done + Int32(size - 1);
    Write(data, 5, wp, done);
    done := done + wp;
    Write(data, 5 + |wp|, Ascii(",p="), done);
    done := done + Ascii(",p=");
    Write(data, 5 + |wp| + 3, p, done);
    done := done + p;
    Complete(data, done);
    assert [] + Ascii("p") == Ascii("p");
  }

  /** The client-final-message begins at offset 5. */
  lemma ResponseFinal(wp: Octets, p: Octets)
    ensures |ContinueResponseText(wp, p)| >= 5 + |wp|
    ensures ContinueResponseText(wp, p)[5..] == wp + Ascii(",p=") + p
    ensures ContinueResponseText(wp, p)[5..5 + |wp|] == wp
  {
    hide Int32;
    hide Ascii;
    var h := Ascii("p") + Int32(7 + |wp| + |p|);
    Assoc(h, wp, Ascii(",p="));
    Assoc(h, wp + Ascii(",p="), p);
    var t := wp + Ascii(",p=") + p;
    assert ContinueResponseText(wp, p) == h + t;
    assert (h + t)[5..] == t && (h + t)[5..5 + |wp|] == t[..|wp|] == wp;
  }

  function FinalText(ss: Octets): Octets {
    Ascii("R") + Int32(10 + |ss|) + Int32(12) + Ascii("v=") + ss
  }

  /** `pgvictoria_create_auth_scram256_final` */
  method CreateFinal(ss: Octets) returns (data: array<Byte>)
    ensures fresh(data) && data[..] == FinalText(ss)
  {
    hide Ascii;
    hide Int32;
    hide Filled;
    var size := 1 + 4 + 4 + 2 + |ss|;
    data := Allocate(size);
    ghost var done: Octets := [];
    Write(data, 0, Ascii("R"), done);
    done := done + Ascii("R");
    Write(data, 1, Int32(size - 1), done);
    done := done + Int32(size - 1);
    Write(data, 5, Int32(12), done);
    done := done + Int32(12);
    Write(data, 9, Ascii("v="), done);
    done := done + Ascii("v=");
    Write(data, 11, ss, done);
    done := done + ss;
    Complete(data, done);
    assert [] + Ascii("R") == Ascii("R");
  }

  /** A final message is one message of the protocol; the signature begins at offset 11. */
  lemma FinalSignature(ss: Octets)
    ensures |FinalText(ss)| >= 11 && FinalText(ss)[11..] == ss
    ensures FinalText(ss) == EncodeAll([Message(82, Int32(12) + Ascii("v=") + ss)])
  {
    hide Int32;
    var m := Message(82, Int32(12) + Ascii("v=") + ss);
    assert Ascii("R") == [82];
    hide Ascii;
    assert EncodeAll([m]) == Encode(m) + [];
    assert FinalText(ss) == [82] + Int32(10 + |ss|) + (Int32(12) + Ascii("v=") + ss);
  }

  // ----- attributes -----

  predicate IsComma(c: Byte) { c == COMMA }

  predicate NotComma(c: Byte) { c != COMMA }

  /** The value of the first attribute with a name, among pieces between commas. */
  function Attribute(name: Byte, s: Octets): Option<Octets>
    decreases |s|
  {
    var t := SkipWhile(s, IsComma);
    if t == [] then None
    else
      var token := TakeWhile(t, NotComma);
      if |token| >= 2 && token[0] == name && token[1] == EQUALS then Some(token[2..])
      else Attribute(name, SkipWhile(t[1..], NotComma))
  }

  /** `get_scram_attribute`: the loop of `strtok` over a copy that ends at the first zero byte. */
  method GetAttribute(name: Byte, input: Octets) returns (value: Option<Octets>)
    ensures value == Attribute(name, TakeWhile(input, NotZero))
  {
    hide SkipWhile;
    hide TakeWhile;
    var rest := TakeWhile(input, NotZero);
    while true
      invariant Attribute(name, rest) == Attribute(name, TakeWhile(input, NotZero))
      decreases |rest|
    {
      var ptr := SkipWhile(rest, IsComma);
      if ptr == [] {
        return None;
      }
      var token := TakeWhile(ptr, NotComma);
      if |token| >= 2 && token[0] == name && token[1] == EQUALS {
        return Some(token[2..]);
      }
      rest := SkipWhile(ptr[1..], NotComma);
    }
  }

  datatype Field = Field(name: Byte, value: Octets)

  function Joined(fs: seq<Field>): Octets {
    if fs == [] then []
    else [fs[0].name, EQUALS] + fs[0].value + (if |fs| > 1 then [COMMA] + Joined(fs[1..]) else [])
  }

  predicate NoCommas(fs: seq<Field>) {
    forall i :: 0 <= i < |fs| ==> fs[i].name != COMMA && COMMA !in fs[i].value
  }

  function ValueOf(fs: seq<Field>, name: Byte): Option<Octets> {
    if fs == [] then None else if fs[0].name == name then Some(fs[0].value) else ValueOf(fs[1..], name)
  }

  lemma TokenFirst(token: Octets, rest: Octets)
    requires token != [] && COMMA !in token && (rest == [] || rest[0] == COMMA)
    ensures var t := token + rest;
            && SkipWhile(t, IsComma) == t && t != []
            && TakeWhile(t, NotComma) == token && SkipWhile(t[1..], NotComma) == rest
  {
    RunEnds(token, rest, NotComma);
    assert (token + rest)[1..] == token[1..] + rest;
    RunEnds(token[1..], rest, NotComma);
  }

  lemma CommaSkipped(name: Byte, s: Octets)
    ensures Attribute(name, [COMMA] + s) == Attribute(name, s)
  {
    SkipOver([COMMA], s, IsComma);
    hide SkipWhile;
    hide TakeWhile;
  }

  lemma AttributeStep(name: Byte, s: Octets, token: Octets, rest: Octets)
    requires s == token + rest && |token| >= 2 && token[1] == EQUALS && COMMA !in token && (rest == [] || rest[0] == COMMA)
    ensures Attribute(name, s) == if token[0] == name then Some(token[2..]) else Attribute(name, rest)
  {
    hide SkipWhile;
    hide TakeWhile;
    TokenFirst(token, rest);
  }

  lemma AttributeNone(name: Byte)
    ensures Attribute(name, []) == None
  {
  }

  /** From a message of fields, an attribute is read back. */
  lemma {:induction false} AttributeOfJoined(fs: seq<Field>, name: Byte)
    requires NoCommas(fs)
    ensures Attribute(name, Joined(fs)) == ValueOf(fs, name)
    decreases |fs|
  {
    hide Attribute;
    AttributeNone(name);
    if fs != [] {
      var token := [fs[0].name, EQUALS] + fs[0].value;
      var more := Joined(fs[1..]);
      var rest := if |fs| > 1 then [COMMA] + more else [];
      AttributeStep(name, Joined(fs), token, rest);
      CommaSkipped(name, more);
      AttributeOfJoined(fs[1..], name);
      assert token[2..] == fs[0].value;
    }
  }
}
