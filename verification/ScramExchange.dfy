// The two roles of a SCRAM-SHA-256 exchange (security.c) as objects with the messages they keep, and
// a run between them.

module ScramExchange {
  import opened Bytes
  import opened Wire
  import opened Scram
  import opened ScramMessages
  import Base64
  import JsonText

  datatype Status = Success | BadPassword | Error

  predicate IsAscii(s: Octets) {
    forall i :: 0 <= i < |s| ==> s[i] < 128
  }

  /** What the string functions see of some bytes. */
  function CString(s: Octets): Octets {
    TakeWhile(s, NotZero)
  }

  /** They see the bytes up to the first zero. */
  lemma CStringIs(a: Octets, b: Octets)
    requires 0 !in a
    ensures CString(a + [0] + b) == a && CString(a) == a
  {
    assert a + [0] + b == a + ([0] + b);
    RunEnds(a, [0] + b, NotZero);
    RunEnds(a, [], NotZero);
    assert a + [] == a;
  }

  /** `atoi`, on numbers that fit. */
  function Atoi(s: Octets): int {
    var n := JsonText.ScanInt(SkipWhile(s, IsSpace));
    if n.Some? then n.value else 0
  }

  /** Digits behind white space are read as their number, up to the first other character. */
  lemma AtoiReads(w: Octets, d: Octets, post: Octets)
    requires Blanks(w) && d != [] && (forall i :: 0 <= i < |d| ==> 48 <= d[i] <= 57) && (post == [] || !(48 <= post[0] <= 57))
    requires JsonText.DigitsValue(d) < 0x8000_0000
    ensures Atoi(w + d + post) == JsonText.DigitsValue(d)
  {
    var t := d + post;
    assert w + d + post == w + t;
    BlanksSkipped(w, t);
    ScanReads(d, post);
    hide *;
    AtoiIs(w + t, t);
  }

  lemma AtoiIs(s: Octets, t: Octets)
    requires SkipWhile(s, IsSpace) == t
    ensures Atoi(s) == if JsonText.ScanInt(t).Some? then JsonText.ScanInt(t).value else 0
  {
    hide SkipWhile;
    hide JsonText.ScanInt;
  }

  lemma ScanReads(d: Octets, post: Octets)
    requires d != [] && (forall i :: 0 <= i < |d| ==> 48 <= d[i] <= 57) && (post == [] || !(48 <= post[0] <= 57))
    requires JsonText.DigitsValue(d) < 0x8000_0000
    ensures JsonText.ScanInt(d + post) == Some(JsonText.DigitsValue(d))
  {
    RunEnds(d, post, JsonText.IsDigit);
    DigitsNotNegative(d);
    hide TakeWhile;
    hide JsonText.DigitsValue;
    assert (d + post)[0] == d[0];
    assert JsonText.ScanDigits(d + post) == Some(JsonText.DigitsValue(d));
    hide JsonText.ScanDigits;
  }

  lemma {:induction false} DigitsNotNegative(d: Octets)
    requires forall i :: 0 <= i < |d| ==> JsonText.IsDigit(d[i])
    ensures JsonText.DigitsValue(d) >= 0
    decreases |d|
  {
    if d != [] {
      DigitsNotNegative(d[..|d| - 1]);
    }
  }

  /** What `snprintf` keeps of a text in a buffer for `n` characters and a zero. */
  function Printed(s: Octets, n: nat): (r: Octets)
    ensures r <= s && |r| == Min(|s|, n)
  {
    if |s| <= n then s else s[..n]
  }

  /** `sasl_prep` */
  method SaslPrep(password: Octets) returns (prep: Option<Octets>)
    ensures prep == if IsAscii(password) then Some(password) else None
  {
    for i := 0 to |password|
      invariant forall k :: 0 <= k < i ==> password[k] < 128
    {
      if password[i] >= 128 {
        return None;
      }
    }
    return Some(password);
  }

  function WithoutProof(nonces: Octets): Octets {
    Ascii("c=biws,r=") + nonces
  }

  const R: Byte := 114
  const S: Byte := 115
  const I: Byte := 105
  const E: Byte := 101
  const P: Byte := 112

  /** An error message of the server, by which the client stops: the attribute e, with the text of the
      error. */
  lemma ErrorRead(v: Octets)
    requires COMMA !in v && 0 !in v
    ensures Attribute(E, CString([101, 61] + v)) == Some(v)
  {
    var fs := [Field(E, v)];
    AttributeOfJoined(fs, E);
    assert Joined(fs) == [101, 61] + v + [];
    assert [101, 61] + v + [] == [101, 61] + v;
    CStringIs([101, 61] + v, []);
  }

  /** The role of `server_scram256` and of `pgvictoria_remote_management_scram_sha256`. */
  class Client {
    const crypto: Crypto
    var password: Octets
    var saslResponse: Octets
    var saslContinue: Octets
    var salt: Octets
    var iteration: int
    var woProof: Octets

    constructor (crypto: Crypto)
      ensures this.crypto == crypto
    {
      this.crypto := crypto;
      password, saslResponse, saslContinue, salt, iteration, woProof := [], [], [], [], 0, [];
    }

    function Auth(): Octets
      reads this
      requires |saslResponse| >= 26 && |saslContinue| >= 9
    {
      AuthMessage(saslResponse[26..], saslContinue[9..], woProof)
    }

    /** The first message; the nonce is the encoding of random bytes. */
    method Start(password: Octets, random: Octets) returns (msg: Option<Octets>)
      modifies this
      ensures msg == if IsAscii(password) then Some(ResponseText(Base64.Encode(random))) else None
      ensures msg.Some? ==> saslResponse == msg.value && this.password == password && |saslResponse| >= 26
      ensures msg.None? ==> saslResponse == old(saslResponse) && this.password == old(this.password)
      ensures saslContinue == old(saslContinue) && salt == old(salt) && iteration == old(iteration) && woProof == old(woProof)
    {
      var prep := SaslPrep(password);
      if prep.None? {
        return None;
      }
      var data := CreateResponse(Base64.Encode(random));
      ResponseBare(Base64.Encode(random));
      this.password, saslResponse := prep.value, data[..];
      return Some(saslResponse);
    }

    /** The answer to the server's first message. The code uses the attributes r, s and i of a message
        that reports no error without asking whether they are there. */
    method Respond(msg: Octets) returns (answer: Option<Octets>)
      requires |saslResponse| >= 26 && |msg| >= 9
      requires var a := CString(msg[9..]);
               msg[0] != 69 && Attribute(E, a).None? ==> Attribute(R, a).Some? && Attribute(S, a).Some? && Attribute(I, a).Some?
      modifies this
      ensures password == old(password) && saslResponse == old(saslResponse)
      ensures saslContinue == msg
      ensures answer.None? ==> salt == old(salt) && iteration == old(iteration) && woProof == old(woProof)
      ensures answer.Some? <==> msg[0] != 69 && Attribute(E, CString(msg[9..])).None?
      ensures answer.Some? ==>
                var a := CString(msg[9..]);
                && salt == Base64.Decode(Attribute(S, a).value)
                && iteration == Atoi(Attribute(I, a).value)
                && woProof == Printed(WithoutProof(Attribute(R, a).value), 57)
                && answer.value == ContinueResponseText(woProof, Base64.Encode(ClientProof(crypto, password, salt, Count(iteration), Auth())))
    {
      hide TakeWhile;
      hide Attribute;
      hide ClientProof;
      hide Atoi;
      saslContinue := msg;
      if msg[0] == 69 {
        return None;
      }
      var nonces := GetAttribute(R, saslContinue[9..]);
      var base64Salt := GetAttribute(S, saslContinue[9..]);
      var iterations := GetAttribute(I, saslContinue[9..]);
      var err := GetAttribute(E, saslContinue[9..]);
      if err.Some? {
        return None;
      }
      salt := Base64.Decode(base64Salt.value);
      iteration := Atoi(iterations.value);
      woProof := Printed(WithoutProof(nonces.value), 57);
      var proof := MakeProof(crypto, password, salt, iteration, saslResponse[26..], saslContinue[9..], woProof);
      var data := CreateContinueResponse(woProof, Base64.Encode(proof));
      return Some(data[..]);
    }

    /** The check of the server's signature. */
    method Finish(msg: Octets, ghost ms: seq<Message>) returns (status: Status)
      requires |saslResponse| >= 26 && |saslContinue| >= 9
      requires msg == EncodeAll(ms) && forall i :: 0 <= i < |ms| ==> Fits(ms[i])
      requires var m := FirstOf(ms, 82); m.Some? ==> |m.value.body| >= 6
      ensures status == (match FirstOf(ms, 82)
                         case None => Error
                         case Some(m) =>
                           if Base64.Decode(m.body[6..]) == ServerSignature(crypto, password, salt, Count(iteration), Auth())
                           then Success else BadPassword)
    {
      hide ServerSignature;
      hide EncodeAll;
      hide FirstOf;
      var saslFinal := Extract(82, msg, ms);
      if saslFinal.None? {
        return Error;
      }
      FinalBody(FirstOf(ms, 82).value);
      var received := Base64.Decode(saslFinal.value[11..]);
      var signature := MakeSignature(crypto, Some(password), salt, iteration, [], saslResponse[26..], saslContinue[9..], woProof);
      return if received == signature then Success else BadPassword;
    }
  }

  lemma FinalBody(m: Message)
    requires |m.body| >= 6
    ensures Encode(m)[11..] == m.body[6..]
  {
  }

  const ITERATIONS: nat := 4096

  /** The role of `client_scram256`. */
  class Server {
    const crypto: Crypto
    var bare: Octets
    var serverFirst: Octets
    var salt: Octets

    constructor (crypto: Crypto)
      ensures this.crypto == crypto
    {
      this.crypto := crypto;
      bare, serverFirst, salt := [], [], [];
    }

    /** The answer to the client's first message. */
    method Continue(msg: Octets, random: Octets, salt: Octets) returns (answer: Octets)
      requires |msg| >= 26 && Attribute(R, CString(msg[26..])).Some?
      modifies this
      ensures var cn, sn, s := Attribute(R, CString(msg[26..])).value, Base64.Encode(random), Base64.Encode(salt);
              && answer == ContinueText(cn, sn, s) && serverFirst == Printed(ServerFirst(cn, sn, s), 88)
      ensures bare == CString(msg[26..]) && this.salt == salt
    {
      hide TakeWhile;
      hide Attribute;
      bare := CString(msg[26..]);
      var clientNonce := GetAttribute(R, msg[26..]);
      var serverNonce := Base64.Encode(random);
      var base64Salt := Base64.Encode(salt);
      this.salt := salt;
      serverFirst := Printed(ServerFirst(clientNonce.value, serverNonce, base64Salt), 88);
      var data := CreateContinue(clientNonce.value, serverNonce, base64Salt);
      return data[..];
    }

    /** The check of the client's proof. */
    method Final(msg: Octets, password: Octets) returns (status: Status, answer: Octets)
      requires IsAscii(password)
      requires |msg| >= 62 && Attribute(P, CString(msg[5..])).Some?
      ensures var auth := AuthMessage(bare, serverFirst, CString(msg[5..62]));
              && status == (if Base64.Decode(Attribute(P, CString(msg[5..])).value) == ClientProof(crypto, password, salt, ITERATIONS, auth)
                            then Success else BadPassword)
              && answer == (if status == Success then FinalText(Base64.Encode(ServerSignature(crypto, password, salt, ITERATIONS, auth)))
                            else [])
    {
      hide TakeWhile;
      hide Attribute;
      hide ClientProof;
      hide ServerSignature;
      var base64Proof := GetAttribute(P, msg[5..]);
      var received := Base64.Decode(base64Proof.value);
      var woProof := CString(msg[5..62]);
      var prep := SaslPrep(password);
      var proof := MakeProof(crypto, prep.value, salt, ITERATIONS, bare, serverFirst, woProof);
      if received != proof {
        return BadPassword, [];
      }
      var signature := MakeSignature(crypto, Some(prep.value), salt, ITERATIONS, [], bare, serverFirst, woProof);
      var data := CreateFinal(Base64.Encode(signature));
      return Success, data[..];
    }
  }
}
