// SCRAM-SHA-256 (security.c): the key derivation, the proofs and the signatures, against their
// definitions in RFC 5802. HMAC and the hash are parameters.

module Scram {
  import opened Bytes
  import opened Wire

  type Digest = s: Octets | |s| == 32 witness seq(32, _ => 0)

  datatype Crypto = Crypto(hmac: (Octets, Octets) -> Digest, hash: Octets -> Digest)

  function Ascii(s: string): (r: Octets)
    ensures |r| == |s|
  {
    seq(|s|, i requires 0 <= i < |s| => if s[i] < 128 as char then s[i] as int else 0)
  }

  const COMMA: Byte := 44

  function Power2(n: nat): nat {
    if n == 0 then 1 else 2 * Power2(n - 1)
  }

  /** The exclusive or of the `n` lowest bits. */
  function XorBits(a: nat, b: nat, n: nat): (r: nat)
    ensures r < Power2(n)
    decreases n
  {
    if n == 0 then 0 else (if a % 2 == b % 2 then 0 else 1) + 2 * XorBits(a / 2, b / 2, n - 1)
  }

  function XorByte(a: Byte, b: Byte): Byte {
    assert Power2(8) == 256;
    XorBits(a, b, 8)
  }

  /** Bit `i` of a number, counted from the lowest. */
  predicate BitAt(a: nat, i: nat)
    decreases i
  {
    if i == 0 then a % 2 == 1 else BitAt(a / 2, i - 1)
  }

  /** A bit of the exclusive or is set exactly if the two bits differ. */
  lemma {:induction false} XorBitsAt(a: nat, b: nat, n: nat, i: nat)
    requires i < n
    ensures BitAt(XorBits(a, b, n), i) <==> BitAt(a, i) != BitAt(b, i)
    decreases n
  {
    var rest := XorBits(a / 2, b / 2, n - 1);
    assert XorBits(a, b, n) / 2 == rest;
    if i > 0 {
      XorBitsAt(a / 2, b / 2, n - 1, i - 1);
    }
  }

  /** A byte is known by its eight bits. */
  lemma {:induction false} SameBits(a: nat, b: nat, n: nat)
    requires a < Power2(n) && b < Power2(n) && forall i :: 0 <= i < n ==> BitAt(a, i) == BitAt(b, i)
    ensures a == b
    decreases n
  {
    if n > 0 {
      assert BitAt(a, 0) == BitAt(b, 0);
      forall i | 0 <= i < n - 1 ensures BitAt(a / 2, i) == BitAt(b / 2, i) {
        assert BitAt(a, i + 1) == BitAt(b, i + 1);
      }
      SameBits(a / 2, b / 2, n - 1);
    }
  }

  lemma XorAt(a: Digest, b: Digest, j: nat, i: nat)
    requires j < 32 && i < 8
    ensures BitAt(Xor(a, b)[j], i) <==> BitAt(a[j], i) != BitAt(b[j], i)
  {
    XorBitsAt(a[j], b[j], 8, i);
  }

  lemma {:induction false} XorBitsCancels(a: nat, b: nat, n: nat)
    requires a < Power2(n)
    ensures XorBits(XorBits(a, b, n), b, n) == a
    decreases n
  {
    if n > 0 {
      XorBitsCancels(a / 2, b / 2, n - 1);
    }
  }

  lemma XorByteCancels(a: Byte, b: Byte)
    ensures XorByte(XorByte(a, b), b) == a
  {
    assert Power2(8) == 256;
    XorBitsCancels(a, b, 8);
  }

  function Xor(a: Digest, b: Digest): (r: Digest)
    ensures forall i :: 0 <= i < 32 ==> r[i] == XorByte(a[i], b[i])
  {
    seq(32, i requires 0 <= i < 32 => XorByte(a[i], b[i]))
  }

  lemma XorCancels(a: Digest, b: Digest)
    ensures Xor(Xor(a, b), b) == a
  {
    forall i | 0 <= i < 32 ensures Xor(Xor(a, b), b)[i] == a[i] { XorByteCancels(a[i], b[i]); }
  }

  // ----- section 2.2 of RFC 5802 -----

  /** U1, U2, and so on. */
  function U(c: Crypto, str: Octets, salt: Octets, i: nat): Digest
    requires i >= 1
  {
    if i == 1 then c.hmac(str, salt + [0, 0, 0, 1]) else c.hmac(str, U(c, str, salt, i - 1))
  }

  function Hi(c: Crypto, str: Octets, salt: Octets, i: nat): Digest
    requires i >= 1
  {
    if i == 1 then U(c, str, salt, 1) else Xor(Hi(c, str, salt, i - 1), U(c, str, salt, i))
  }

  /** The rounds up to `n` in which a bit of the result is set. */
  ghost function RoundsWithBit(c: Crypto, str: Octets, salt: Octets, n: nat, j: nat, i: nat): set<nat>
    requires j < 32
  {
    set k: nat | 1 <= k <= n && BitAt(U(c, str, salt, k)[j], i)
  }

  lemma RoundsStep(c: Crypto, str: Octets, salt: Octets, n: nat, j: nat, i: nat)
    requires n >= 1 && j < 32
    ensures |RoundsWithBit(c, str, salt, n, j, i)| ==
            |RoundsWithBit(c, str, salt, n - 1, j, i)| + if BitAt(U(c, str, salt, n)[j], i) then 1 else 0
    ensures RoundsWithBit(c, str, salt, 0, j, i) == {}
  {
    hide BitAt;
    hide U;
    var now, before := RoundsWithBit(c, str, salt, n, j, i), RoundsWithBit(c, str, salt, n - 1, j, i);
    if BitAt(U(c, str, salt, n)[j], i) {
      assert now == before + {n} && n !in before;
    } else {
      assert now == before;
    }
  }

  /** Every bit of Hi is set exactly if it is set in an odd number of rounds. */
  lemma {:induction false} HiBits(c: Crypto, str: Octets, salt: Octets, n: nat, j: nat, i: nat)
    requires n >= 1 && j < 32 && i < 8
    ensures BitAt(Hi(c, str, salt, n)[j], i) <==> |RoundsWithBit(c, str, salt, n, j, i)| % 2 == 1
    decreases n
  {
    hide *;
    RoundsStep(c, str, salt, n, j, i);
    HiStep(c, str, salt, n);
    if n > 1 {
      HiBits(c, str, salt, n - 1, j, i);
      XorAt(Hi(c, str, salt, n - 1), U(c, str, salt, n), j, i);
    }
  }

  lemma HiStep(c: Crypto, str: Octets, salt: Octets, n: nat)
    requires n >= 1
    ensures Hi(c, str, salt, n) == if n == 1 then U(c, str, salt, 1) else Xor(Hi(c, str, salt, n - 1), U(c, str, salt, n))
  {
  }

  /** `salted_password`; it makes one round for a count below one. */
  method SaltedPassword(c: Crypto, password: Octets, salt: Octets, iterations: int) returns (r: array<Byte>)
    ensures fresh(r) && r[..] == Hi(c, password, salt, if iterations < 1 then 1 else iterations)
    ensures forall j, i: nat :: 0 <= j < 32 && i < 8 ==>
              (BitAt(r[j], i) <==> |RoundsWithBit(c, password, salt, if iterations < 1 then 1 else iterations, j, i)| % 2 == 1)
  {
    hide Xor;
    hide XorByte;
    hide BitAt;
    hide RoundsWithBit;
    var one: Octets := [0, 0, 0, 1];
    var prev: Digest := c.hmac(password, salt + one);
    r := new Byte[32](i requires 0 <= i < 32 => prev[i]);
    assert r[..] == prev;
    var i := 2;
    while i <= iterations
      invariant i >= 2 && (i == 2 || i <= iterations + 1)
      invariant prev == U(c, password, salt, i - 1)
      invariant r[..] == Hi(c, password, salt, i - 1)
    {
      var ui: Digest := c.hmac(password, prev);
      XorInto(r, ui);
      prev := ui;
      i := i + 1;
    }
    forall j, i: nat | 0 <= j < 32 && i < 8
      ensures BitAt(r[j], i) <==>
              |RoundsWithBit(c, password, salt, if iterations < 1 then 1 else iterations, j, i)| % 2 == 1
    {
      HiBits(c, password, salt, if iterations < 1 then 1 else iterations, j, i);
    }
  }

  /** `*(r + j) ^= *(Ui + j)` for every byte. */
  method XorInto(r: array<Byte>, u: Digest)
    requires r.Length == 32
    modifies r
    ensures r[..] == Xor(old(r[..]), u)
  {
    hide XorByte;
    for j := 0 to 32
      invariant forall k :: 0 <= k < j ==> r[k] == XorByte(old(r[k]), u[k])
      invariant forall k :: j <= k < 32 ==> r[k] == old(r[k])
    {
      r[j] := XorByte(r[j], u[j]);
    }
  }

  // ----- section 3 of RFC 5802 -----

  /** client-first-message-bare "," server-first-message "," client-final-message-without-proof */
  function AuthMessage(bare: Octets, serverFirst: Octets, woProof: Octets): Octets {
    bare + [COMMA] + serverFirst + [COMMA] + woProof
  }

  function ClientKey(c: Crypto, password: Octets, salt: Octets, i: nat): Digest
    requires i >= 1
  {
    c.hmac(Hi(c, password, salt, i), Ascii("Client Key"))
  }

  function StoredKey(c: Crypto, password: Octets, salt: Octets, i: nat): Digest
    requires i >= 1
  {
    c.hash(ClientKey(c, password, salt, i))
  }

  function ServerKey(c: Crypto, password: Octets, salt: Octets, i: nat): Digest
    requires i >= 1
  {
    c.hmac(Hi(c, password, salt, i), Ascii("Server Key"))
  }

  function ClientProof(c: Crypto, password: Octets, salt: Octets, i: nat, auth: Octets): Digest
    requires i >= 1
  {
    Xor(ClientKey(c, password, salt, i), c.hmac(StoredKey(c, password, salt, i), auth))
  }

  function ServerSignature(c: Crypto, password: Octets, salt: Octets, i: nat, auth: Octets): Digest
    requires i >= 1
  {
    c.hmac(ServerKey(c, password, salt, i), auth)
  }

  /** The two keys, with their names in ASCII. */
  lemma KeyNames(c: Crypto, password: Octets, salt: Octets, i: nat)
    requires i >= 1
    ensures ClientKey(c, password, salt, i) == c.hmac(Hi(c, password, salt, i), [67, 108, 105, 101, 110, 116, 32, 75, 101, 121])
    ensures ServerKey(c, password, salt, i) == c.hmac(Hi(c, password, salt, i), [83, 101, 114, 118, 101, 114, 32, 75, 101, 121])
  {
    hide Hi;
    assert Ascii("Client Key") == [67, 108, 105, 101, 110, 116, 32, 75, 101, 121];
    assert Ascii("Server Key") == [83, 101, 114, 118, 101, 114, 32, 75, 101, 121];
  }

  /** The iteration count that is used for a number read from a message. */
  function Count(iterations: int): nat {
    if iterations < 1 then 1 else iterations
  }

  /** The five calls of `HMAC_Update`. */
  method Sign(c: Crypto, key: Octets, bare: Octets, serverFirst: Octets, woProof: Octets) returns (r: Digest)
    ensures r == c.hmac(key, AuthMessage(bare, serverFirst, woProof))
  {
    var input := bare;
    input := input + [COMMA];
    input := input + serverFirst;
    input := input + [COMMA];
    input := input + woProof;
    r := c.hmac(key, input);
  }

  /** `client_proof` */
  method MakeProof(c: Crypto, password: Octets, salt: Octets, iterations: int, bare: Octets, serverFirst: Octets, woProof: Octets)
      returns (r: Digest)
    ensures r == ClientProof(c, password, salt, Count(iterations), AuthMessage(bare, serverFirst, woProof))
    ensures var key := ClientKey(c, password, salt, Count(iterations));
            var signature := c.hmac(c.hash(key), bare + [44] + serverFirst + [44] + woProof);
            forall j, i: nat :: 0 <= j < 32 && i < 8 ==> (BitAt(r[j], i) <==> BitAt(key[j], i) != BitAt(signature[j], i))
  {
    hide Hi;
    hide BitAt;
    hide XorByte;
    var saltedPassword := SaltedPassword(c, password, salt, iterations);
    var clientKey: Digest := c.hmac(saltedPassword[..], Ascii("Client Key"));
    var storedKey: Digest := c.hash(clientKey);
    var signature: Digest := Sign(c, storedKey, bare, serverFirst, woProof);
    var proof := new Byte[32](i requires 0 <= i < 32 => clientKey[i]);
    assert proof[..] == clientKey;
    XorInto(proof, signature);
    r := proof[..];
    forall j, i: nat | 0 <= j < 32 && i < 8 ensures BitAt(r[j], i) <==> BitAt(clientKey[j], i) != BitAt(signature[j], i) {
      XorAt(clientKey, signature, j, i);
    }
  }

  /** `server_signature`: the server key is made from the password, or is given if there is none. */
  method MakeSignature(c: Crypto, password: Option<Octets>, salt: Octets, iterations: int, sKey: Octets,
                       bare: Octets, serverFirst: Octets, woProof: Octets)
      returns (r: Digest)
    ensures var auth := AuthMessage(bare, serverFirst, woProof);
            && (password.Some? ==> r == ServerSignature(c, password.value, salt, Count(iterations), auth))
            && (password.None? ==> r == c.hmac(sKey, auth))
            && (forall p, i: nat | password.None? && i >= 1 && sKey == ServerKey(c, p, salt, i) ::
                  r == ServerSignature(c, p, salt, i, auth))
  {
    hide Hi;
    if password.None? {
      r := Sign(c, sKey, bare, serverFirst, woProof);
      return;
    }
    var saltedPassword := SaltedPassword(c, password.value, salt, iterations);
    var serverKey: Digest := c.hmac(saltedPassword[..], Ascii("Server Key"));
    r := Sign(c, serverKey, bare, serverFirst, woProof);
  }

  /** How section 3 of RFC 5802 has a server check a proof that it holds only the stored key for. */
  predicate ProofVerifies(c: Crypto, storedKey: Digest, auth: Octets, proof: Digest) {
    c.hash(Xor(proof, c.hmac(storedKey, auth))) == storedKey
  }

  /** The code compares proofs instead. It accepts only what the standard accepts, and everything it
      accepts, as long as the hash does not collide on the client key. */
  lemma ComparingProofs(c: Crypto, password: Octets, salt: Octets, i: nat, auth: Octets, proof: Digest)
    requires i >= 1
    ensures proof == ClientProof(c, password, salt, i, auth) ==> ProofVerifies(c, StoredKey(c, password, salt, i), auth, proof)
    ensures var key := Xor(proof, c.hmac(StoredKey(c, password, salt, i), auth));
            ProofVerifies(c, StoredKey(c, password, salt, i), auth, proof) ==>
              (proof == ClientProof(c, password, salt, i, auth) <==>
               (c.hash(key) == c.hash(ClientKey(c, password, salt, i)) ==> key == ClientKey(c, password, salt, i)))
  {
    hide Hi;
    hide XorByte;
    var clientKey := ClientKey(c, password, salt, i);
    var signature := c.hmac(StoredKey(c, password, salt, i), auth);
    XorCancels(clientKey, signature);
    XorCancels(proof, signature);
  }
}
