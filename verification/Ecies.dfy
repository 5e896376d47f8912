/** Serialization and hybrid encryption of shares (crypto/ecies/ecies.go, crypto/elgamal/serialize.go).
    The curve library's encodings and hash-to-scalar, the byte hashes (SHA-256 and BLAKE2b) and
    ChaCha20-Poly1305 (section 2.8 of RFC 8439) are the fields of a `Suite`; `Lawful` lists the only
    facts about them that are used. */
module Ecies {
  import opened Field
  import opened Group
  import opened ByteStrings

  datatype Suite = Suite(
    encPoint: Point -> Bytes,
    decPoint: Bytes -> Option<Point>,
    encScalar: Scalar -> Bytes,
    decScalar: Bytes -> Option<Scalar>,
    hash: Bytes -> Bytes,
    toScalar: Bytes -> Scalar,
    seal: (Bytes, Bytes) -> Bytes,
    open: (Bytes, Bytes) -> Option<Bytes>)

  ghost predicate Lawful(u: Suite) {
    && (forall p: Point :: |u.encPoint(p)| == 32 && u.decPoint(u.encPoint(p)) == Some(p))
    && (forall s: Scalar :: |u.encScalar(s)| == 32 && u.decScalar(u.encScalar(s)) == Some(s))
    && (forall k: Bytes, m: Bytes :: |u.seal(k, m)| == |m| + 16 && u.open(k, u.seal(k, m)) == Some(m))
  }

  /** Rejects a wrong length, an invalid encoding and the identity. */
  function UnmarshalPublicKey(u: Suite, data: Bytes): Result<Point> {
    if |data| != 32 then Err
    else match u.decPoint(data)
      case None => Err
      case Some(p) => if p == Identity then Err else Ok(p)
  }

  /** Rejects a wrong length, an invalid encoding and zero. */
  function UnmarshalSecretKey(u: Suite, data: Bytes): Result<Scalar> {
    if |data| != 32 then Err
    else match u.decScalar(data)
      case None => Err
      case Some(s) => if s == 0 then Err else Ok(s)
  }

  /** Exactly the 32-byte encodings of usable keys are read. */
  lemma UnmarshalExact(u: Suite, data: Bytes, p: Point, s: Scalar)
    ensures UnmarshalPublicKey(u, data) == Ok(p) <==> |data| == 32 && u.decPoint(data) == Some(p) && p.log != 0
    ensures UnmarshalSecretKey(u, data) == Ok(s) <==> |data| == 32 && u.decScalar(data) == Some(s) && s != 0
  {
  }

  datatype Envelope = Envelope(ephemeral: Point, ciphertext: Bytes)

  /** The x-coordinate: the compressed point with the sign bit of byte 31 cleared. */
  function XCoordinate(u: Suite, p: Point): Bytes {
    var c := u.encPoint(p);
    if |c| <= 31 then c else c[31 := c[31] % 128]
  }

  function DeriveKey(u: Suite, e: Point, s: Point): Bytes {
    u.hash(u.encPoint(e) + XCoordinate(u, s))
  }

  /** Two points give the same x-coordinate if and only if their encodings agree up to the top bit of the
      last byte, and that bit is zero in it. */
  lemma XCoordinateExact(u: Suite, p: Point, q: Point)
    requires Lawful(u)
    ensures |XCoordinate(u, p)| == 32 && XCoordinate(u, p)[31] < 128
    ensures XCoordinate(u, p) == XCoordinate(u, q) <==>
      && u.encPoint(p)[..31] == u.encPoint(q)[..31]
      && var a: int, b: int := u.encPoint(p)[31], u.encPoint(q)[31];
      a == b || a == b + 128 || b == a + 128
  {
    var a, b := u.encPoint(p), u.encPoint(q);
    var x, y := XCoordinate(u, p), XCoordinate(u, q);
    assert |a| == 32 && |b| == 32;
    assert x == a[..31] + [a[31] % 128] && y == b[..31] + [b[31] % 128];
    assert x[..31] == a[..31] && y[..31] == b[..31] && x[31] == a[31] % 128 && y[31] == b[31] % 128;
    assert x == y <==> x[..31] == y[..31] && x[31] == y[31];
  }

  /** What is hashed into an envelope's key determines the ephemeral point and the shared x-coordinate. */
  lemma KeyPreimageInjective(u: Suite, e: Point, s: Point, e': Point, s': Point)
    requires Lawful(u)
    ensures DeriveKey(u, e, s) == u.hash(u.encPoint(e) + XCoordinate(u, s))
    ensures u.encPoint(e) + XCoordinate(u, s) == u.encPoint(e') + XCoordinate(u, s') <==>
      e == e' && XCoordinate(u, s) == XCoordinate(u, s')
  {
    hide XCoordinate;
    var a, b := u.encPoint(e) + XCoordinate(u, s), u.encPoint(e') + XCoordinate(u, s');
    assert |u.encPoint(e)| == 32 && |u.encPoint(e')| == 32;
    assert a[..32] == u.encPoint(e) && b[..32] == u.encPoint(e');
    assert a[32..] == XCoordinate(u, s) && b[32..] == XCoordinate(u, s');
    assert u.decPoint(u.encPoint(e)) == Some(e) && u.decPoint(u.encPoint(e')) == Some(e');
  }

  /** `e` is the ephemeral scalar the source derives from its random source. */
  function Encrypt(u: Suite, g: Point, recipient: Point, plaintext: Bytes, e: Scalar): Result<Envelope> {
    if g == Identity || recipient == Identity || plaintext == [] then Err
    else
      var E, S := PMul(g, e), PMul(recipient, e);
      if E == Identity || S == Identity then Err
      else Ok(Envelope(E, u.seal(DeriveKey(u, E, S), plaintext)))
  }

  function Decrypt(u: Suite, sk: Scalar, env: Envelope): Result<Bytes> {
    if sk == 0 || env.ephemeral == Identity || |env.ciphertext| < 16 then Err
    else
      var S := PMul(env.ephemeral, sk);
      if S == Identity then Err
      else match u.open(DeriveKey(u, env.ephemeral, S), env.ciphertext)
        case None => Err
        case Some(m) => Ok(m)
  }

  lemma NonIdentityMultiple(p: Point, s: Scalar)
    ensures PMul(p, s) == Identity <==> p == Identity || s == 0
  {
    ReduceScalar(0);
    if p != Identity && PMul(p, s) == Identity {
      BaseInjective(p, s, 0);
    }
  }

  /** Sealing succeeds exactly for usable points, a non-empty plaintext and a non-zero ephemeral scalar;
      the envelope carries e*G, and is sealed under the key of the shared point. */
  lemma EncryptExact(u: Suite, g: Point, recipient: Point, m: Bytes, e: Scalar)
    ensures Encrypt(u, g, recipient, m, e).Ok? <==> g.log != 0 && recipient.log != 0 && m != [] && e != 0
    ensures Encrypt(u, g, recipient, m, e).Ok? ==>
      var env := Encrypt(u, g, recipient, m, e).value;
      env.ephemeral == PMul(g, e) && env.ciphertext == u.seal(DeriveKey(u, PMul(g, e), PMul(recipient, e)), m)
  {
    NonIdentityMultiple(g, e);
    NonIdentityMultiple(recipient, e);
  }

  /** Opening succeeds exactly when the shared point is usable, the ciphertext has room for a tag, and the
      AEAD opens it under the key of that point. */
  lemma DecryptExact(u: Suite, sk: Scalar, env: Envelope, m: Bytes)
    ensures Decrypt(u, sk, env) == Ok(m) <==>
      && PMul(env.ephemeral, sk).log != 0 && |env.ciphertext| >= 16
      && u.open(DeriveKey(u, env.ephemeral, PMul(env.ephemeral, sk)), env.ciphertext) == Some(m)
  {
    NonIdentityMultiple(env.ephemeral, sk);
  }

  /** Encryption to a key pair succeeds exactly for a non-zero ephemeral scalar and a non-empty
      message, and the holder of the secret key recovers the message. */
  lemma RoundTrip(u: Suite, g: Point, sk: Scalar, m: Bytes, e: Scalar)
    requires Lawful(u) && g != Identity && sk != 0
    ensures Encrypt(u, g, PMul(g, sk), m, e).Ok? <==> e != 0 && m != []
    ensures e != 0 && m != [] ==> Decrypt(u, sk, Encrypt(u, g, PMul(g, sk), m, e).value) == Ok(m)
  {
    NonIdentityMultiple(g, sk);
    NonIdentityMultiple(g, e);
    NonIdentityMultiple(PMul(g, sk), e);
    MulMul(g, sk, e);
  }
}
