// A run of a SCRAM-SHA-256 exchange between the two roles of security.c: both sign the same
// AuthMessage, and with one password both succeed.

module ScramRun {
  import opened Bytes
  import opened Wire
  import opened Scram
  import opened ScramMessages
  import opened ScramExchange

  /** The text of an encoding: no comma and no zero byte. */
  predicate Plain(s: Octets) {
    forall i :: 0 <= i < |s| ==> s[i] != COMMA && s[i] != 0
  }

  lemma NoZeros(s: Octets)
    requires forall i :: 0 <= i < |s| ==> s[i] != 0
    ensures CString(s) == s
  {
    RunEnds(s, [], NotZero);
    assert s + [] == s;
  }

  // ----- the four messages, as fields -----

  lemma BareFields(nonce: Octets)
    requires Plain(nonce)
    ensures var bare := Ascii("n=,r=") + nonce;
            CString(bare) == bare && Attribute(R, bare) == Some(nonce)
  {
    var fs := [Field(110, []), Field(R, nonce)];
    assert fs[1..] == [Field(R, nonce)];
    assert Joined(fs[1..]) == [R, EQUALS] + nonce;
    assert Ascii("n=,r=") == [110, EQUALS] + [] + [COMMA] + [R, EQUALS];
    assert Joined(fs) == Ascii("n=,r=") + nonce;
    AttributeOfJoined(fs, R);
    NoZeros(Ascii("n=,r=") + nonce);
  }

  lemma ThreeFields(a: Field, b: Field, c: Field, name: Byte)
    requires NoCommas([a, b, c])
    ensures Joined([a, b, c]) ==
            [a.name, EQUALS] + a.value + ([COMMA] + ([b.name, EQUALS] + b.value + ([COMMA] + ([c.name, EQUALS] + c.value))))
    ensures Attribute(name, Joined([a, b, c])) ==
            if a.name == name then Some(a.value) else if b.name == name then Some(b.value)
            else if c.name == name then Some(c.value) else None
  {
    var fs := [a, b, c];
    AttributeOfJoined(fs, name);
    hide Attribute;
    assert fs[1..] == [b, c] && fs[1..][1..] == [c];
    assert Joined([c]) == [c.name, EQUALS] + c.value;
    assert [b, c][1..] == [c] && [c][1..] == [];
    assert ValueOf([c], name) == if c.name == name then Some(c.value) else None;
  }

  lemma Pieces(a: Octets, x: Octets, y: Octets, b: Octets, z: Octets, c: Octets)
    ensures a + x + y + b + z + c == a + (x + y) + (b + (z + c))
  {
    Assoc(a, x, y);
    Assoc(a + (x + y) + b, z, c);
    Assoc(a + (x + y), b, z + c);
  }

  lemma ServerFirstTexts()
    ensures Ascii("r=") == [R, EQUALS] && Ascii(",s=") == [COMMA, S, EQUALS]
    ensures Ascii(",i=4096") == [COMMA, I, EQUALS, 52, 48, 57, 54] && Ascii("4096") == [52, 48, 57, 54]
  {
  }

  lemma FinalTexts()
    ensures Ascii("c=biws,r=") == [99, EQUALS, 98, 105, 119, 115, COMMA, R, EQUALS]
    ensures Ascii(",p=") == [COMMA, P, EQUALS] && Ascii("biws") == [98, 105, 119, 115]
  {
  }

  lemma ServerFirstJoined(cn: Octets, sn: Octets, salt: Octets)
    ensures ServerFirst(cn, sn, salt) == Joined([Field(R, cn + sn), Field(S, salt), Field(I, Ascii("4096"))])
    requires Plain(cn) && Plain(sn) && Plain(salt)
  {
    hide Attribute;
    ServerFirstTexts();
    ThreeFields(Field(R, cn + sn), Field(S, salt), Field(I, Ascii("4096")), R);
    hide Joined;
    Pieces(Ascii("r="), cn, sn, Ascii(",s="), salt, Ascii(",i=4096"));
    hide Ascii;
    assert [COMMA] + ([I, EQUALS] + [52, 48, 57, 54]) == [COMMA, I, EQUALS, 52, 48, 57, 54];
    var t := salt + [COMMA, I, EQUALS, 52, 48, 57, 54];
    assert [COMMA] + ([S, EQUALS] + t) == [COMMA, S, EQUALS] + t;
    Assoc([S, EQUALS], salt, [COMMA, I, EQUALS, 52, 48, 57, 54]);
  }

  lemma ServerFirstFields(cn: Octets, sn: Octets, salt: Octets)
    requires Plain(cn) && Plain(sn) && Plain(salt)
    ensures var f := ServerFirst(cn, sn, salt);
            && CString(f) == f
            && Attribute(R, f) == Some(cn + sn) && Attribute(S, f) == Some(salt)
            && Attribute(I, f) == Some(Ascii("4096")) && Attribute(E, f) == None
  {
    hide Attribute;
    hide Joined;
    hide TakeWhile;
    ServerFirstTexts();
    ServerFirstJoined(cn, sn, salt);
    var a, b, c := Field(R, cn + sn), Field(S, salt), Field(I, Ascii("4096"));
    ThreeFields(a, b, c, R);
    ThreeFields(a, b, c, S);
    ThreeFields(a, b, c, I);
    ThreeFields(a, b, c, E);
    NoZeros(ServerFirst(cn, sn, salt));
  }

  lemma FinalJoined(nonces: Octets, proof: Octets)
    requires Plain(nonces) && Plain(proof)
    ensures WithoutProof(nonces) + Ascii(",p=") + proof == Joined([Field(99, Ascii("biws")), Field(R, nonces), Field(P, proof)])
  {
    hide Attribute;
    FinalTexts();
    ThreeFields(Field(99, Ascii("biws")), Field(R, nonces), Field(P, proof), P);
    hide Joined;
    hide Ascii;
    var h: Octets := [99, EQUALS, 98, 105, 119, 115, COMMA, R, EQUALS];
    Assoc(h + nonces, [COMMA, P, EQUALS], proof);
    Assoc(h, nonces, [COMMA, P, EQUALS] + proof);
    var t := [COMMA, P, EQUALS] + proof;
    assert t == [COMMA] + ([P, EQUALS] + proof);
    Assoc([R, EQUALS], nonces, t);
    assert h + (nonces + t) == [99, EQUALS] + [98, 105, 119, 115] + ([COMMA] + ([R, EQUALS] + (nonces + t)));
  }

  lemma FinalFields(nonces: Octets, proof: Octets)
    requires Plain(nonces) && Plain(proof)
    ensures var f := WithoutProof(nonces) + Ascii(",p=") + proof;
            CString(f) == f && Attribute(P, f) == Some(proof) && CString(WithoutProof(nonces)) == WithoutProof(nonces)
    ensures |WithoutProof(nonces)| == 9 + |nonces|
  {
    hide Attribute;
    hide Joined;
    hide TakeWhile;
    FinalTexts();
    FinalJoined(nonces, proof);
    ThreeFields(Field(99, Ascii("biws")), Field(R, nonces), Field(P, proof), P);
    hide Ascii;
    NoZeros(WithoutProof(nonces) + Ascii(",p=") + proof);
    NoZeros(WithoutProof(nonces));
  }

  lemma FourThousandNinetySix()
    ensures Atoi(Ascii("4096")) == ITERATIONS
  {
    assert Ascii("4096") == [52, 48, 57, 54];
    assert JsonText.Digits(4096) == JsonText.Digits(409) + [54];
    assert JsonText.Digits(409) == JsonText.Digits(40) + [57];
    assert JsonText.Decimal(4096) == [52, 48, 57, 54];
    JsonText.ScanDecimal(4096);
  }

  // ----- the run -----

  /** What both roles sign, from the nonces and the salt as they travel. */
  function HonestAuth(cn: Octets, sn: Octets, salt: Octets): Octets {
    AuthMessage(Ascii("n=,r=") + cn, ServerFirst(cn, sn, salt), WithoutProof(cn + sn))
  }

  lemma EncodedPlain(s: Octets)
    ensures Plain(Base64.Encode(s))
  {
  }

  lemma ServerFirstShort(cn: Octets, sn: Octets, salt: Octets)
    requires |cn| + |sn| + |salt| <= 76
    ensures Printed(ServerFirst(cn, sn, salt), 88) == ServerFirst(cn, sn, salt)
  {
  }

  /** The server's view of the client's first message. */
  lemma FirstMessage(nonce: Octets)
    requires Plain(nonce)
    ensures var m := ResponseText(nonce);
            |m| >= 26 && CString(m[26..]) == m[26..] == Ascii("n=,r=") + nonce && Attribute(R, m[26..]) == Some(nonce)
  {
    ResponseBare(nonce);
    BareFields(nonce);
  }

  /** The client's view of the server's first message. */
  lemma SecondMessage(cn: Octets, sn: Octets, salt: Octets)
    requires Plain(cn) && Plain(sn) && Plain(salt) && |cn| + |sn| == 48
    ensures var m := ContinueText(cn, sn, salt);
            && |m| >= 9 && m[0] != 69 && m[9..] == ServerFirst(cn, sn, salt) && CString(m[9..]) == m[9..]
            && Attribute(R, m[9..]) == Some(cn + sn) && Attribute(S, m[9..]) == Some(salt)
            && Attribute(I, m[9..]) == Some(Ascii("4096")) && Attribute(E, m[9..]) == None
    ensures Printed(WithoutProof(cn + sn), 57) == WithoutProof(cn + sn) && |WithoutProof(cn + sn)| == 57
  {
    hide Attribute;
    hide ServerFirst;
    hide TakeWhile;
    ContinueFirst(cn, sn, salt);
    ServerFirstFields(cn, sn, salt);
    FinalFields(cn + sn, []);
  }

  /** The server's view of the client's final message. */
  lemma ThirdMessage(nonces: Octets, proof: Octets)
    requires Plain(nonces) && Plain(proof) && |nonces| == 48
    ensures var m := ContinueResponseText(WithoutProof(nonces), proof);
            && |m| >= 62 && Attribute(P, CString(m[5..])) == Some(proof) && CString(m[5..62]) == WithoutProof(nonces)
  {
    hide Attribute;
    hide TakeWhile;
    hide WithoutProof;
    FinalFields(nonces, proof);
    ResponseFinal(WithoutProof(nonces), proof);
  }

  /** The client's view of the server's final message. */
  lemma FourthMessage(signature: Octets) returns (ms: seq<Message>)
    requires |signature| < 0x1000
    ensures FinalText(signature) == EncodeAll(ms) && |ms| == 1 && Fits(ms[0])
    ensures FirstOf(ms, 82) == Some(ms[0]) && |ms[0].body| >= 6 && ms[0].body[6..] == signature
  {
    FinalSignature(signature);
    var b := Int32(12) + Ascii("v=") + signature;
    ms := [Message(82, b)];
    assert b[6..] == signature;
  }

  /** A run of the two roles, each with a password of its own, over a network that delivers every
      message. Both sign the same AuthMessage. With the same ASCII password both succeed. In general
      the server accepts exactly when the two passwords give the same proof, and then the client
      accepts exactly when they give the same signature; a client with a password that is not ASCII
      stops before it sends anything. */
  method Run(crypto: Crypto, clientPassword: Octets, serverPassword: Octets,
             clientRandom: Octets, serverRandom: Octets, salt: Octets)
      returns (client: Status, server: Status, ghost auth: Octets)
    requires |clientRandom| == |serverRandom| == 18 && |salt| == 16 && IsAscii(serverPassword)
    ensures auth == HonestAuth(Base64.Encode(clientRandom), Base64.Encode(serverRandom), Base64.Encode(salt))
    ensures clientPassword == serverPassword ==> client == Success && server == Success
    ensures !IsAscii(clientPassword) ==> client == Error && server == Error
    ensures IsAscii(clientPassword) ==>
              (server == Success <==>
               ClientProof(crypto, clientPassword, salt, 4096, auth) == ClientProof(crypto, serverPassword, salt, 4096, auth))
    ensures server != Success ==> client == Error
    ensures server == Success ==>
              (client == Success <==>
               ServerSignature(crypto, clientPassword, salt, 4096, auth) == ServerSignature(crypto, serverPassword, salt, 4096, auth))
  {
    hide ClientProof;
    hide ServerSignature;
    hide Attribute;
    hide TakeWhile;
    hide Atoi;
    hide Ascii;
    hide ResponseText;
    hide ContinueText;
    hide ContinueResponseText;
    hide FinalText;
    hide ServerFirst;
    hide WithoutProof;
    hide AuthMessage;
    hide EncodeAll;
    hide FirstOf;
    hide Base64.Encode;
    hide Base64.Decode;
    ghost var cn, sn, s := Base64.Encode(clientRandom), Base64.Encode(serverRandom), Base64.Encode(salt);
    auth := HonestAuth(cn, sn, s);
    EncodedPlain(clientRandom);
    EncodedPlain(serverRandom);
    EncodedPlain(salt);
    client, server := Error, Error;
    var c := new Client(crypto);
    var first := c.Start(clientPassword, clientRandom);
    if first.None? {
      return;
    }
    FirstMessage(cn);
    var v := new Server(crypto);
    var second := v.Continue(first.value, serverRandom, salt);
    ServerFirstShort(cn, sn, s);
    SecondMessage(cn, sn, s);
    Base64.DecodeEncode(salt);
    FourThousandNinetySix();
    var third := c.Respond(second);
    assert c.Auth() == auth;
    ghost var proof := ClientProof(crypto, clientPassword, salt, 4096, auth);
    EncodedPlain(proof);
    ThirdMessage(cn + sn, Base64.Encode(proof));
    Base64.DecodeEncode(proof);
    var fourth;
    server, fourth := v.Final(third.value, serverPassword);
    if server != Success {
      return;
    }
    ghost var signature := ServerSignature(crypto, serverPassword, salt, 4096, auth);
    ghost var ms := FourthMessage(Base64.Encode(signature));
    Base64.DecodeEncode(signature);
    client := c.Finish(fourth, ms);
  }
}
