/** Additive ElGamal over the group (crypto/elgamal/elgamal.go). */
module ElGamal {
  import opened Field
  import opened Group

  datatype Ciphertext = Ciphertext(c1: Point, c2: Point)

  /** (r*G, v*G + r*pk) */
  function EncryptCore(pk: Point, v: int, r: Scalar): Ciphertext {
    Ciphertext(PMul(Generator, r), PAdd(PMul(Generator, Reduce(v)), PMul(pk, r)))
  }

  function EncryptWithRandomness(pk: Point, v: int, r: Scalar): Result<Ciphertext> {
    if pk == Identity || r == 0 then Err else Ok(EncryptCore(pk, v, r))
  }

  function ValuePoint(v: int): Point {
    PMul(Generator, Reduce(v))
  }

  function DecryptToPoint(sk: Scalar, ct: Ciphertext): Point {
    PSub(ct.c2, PMul(ct.c1, sk))
  }

  function HomomorphicAdd(a: Ciphertext, b: Ciphertext): Ciphertext {
    Ciphertext(PAdd(a.c1, b.c1), PAdd(a.c2, b.c2))
  }

  /** Encryption with given randomness is refused exactly for an identity key or zero randomness; the
      result has a proper C1 and decrypts to the value under the key's secret. */
  lemma EncryptWithRandomnessExact(sk: Scalar, v: int, r: Scalar)
    ensures var pk := PMul(Generator, sk); var x := EncryptWithRandomness(pk, v, r);
      && (x.Ok? <==> sk != 0 && r != 0)
      && (x.Ok? ==> x.value.c1 == Point(r) && DecryptToPoint(sk, x.value) == ValuePoint(v))
  {
    GeneratorMul(sk);
    GeneratorMul(r);
    DecryptEncrypt(sk, v, r);
  }

  lemma ValuePointLog(v: int)
    ensures ValuePoint(v) == Point(Reduce(v))
  {
    GeneratorMul(Reduce(v));
  }

  lemma EncryptLogs(pk: Point, v: int, r: Scalar)
    ensures EncryptCore(pk, v, r).c1.log == r
    ensures Cong(EncryptCore(pk, v, r).c2.log, v + pk.log * r)
  {
    GeneratorMul(r);
    GeneratorMul(Reduce(v));
    CongReduce(v);
    CongReduce(pk.log * r);
    CongAdd(Reduce(v), v, Mul(pk.log, r), pk.log * r);
    CongReduce(Reduce(v) + Mul(pk.log, r));
    CongTrans(EncryptCore(pk, v, r).c2.log, Reduce(v) + Mul(pk.log, r), v + pk.log * r);
  }

  /** Adding ciphertexts adds plaintexts and randomness. */
  lemma AddEncrypts(pk: Point, a: int, r: Scalar, b: int, s: Scalar)
    ensures HomomorphicAdd(EncryptCore(pk, a, r), EncryptCore(pk, b, s)) == EncryptCore(pk, a + b, Add(r, s))
  {
    var x, y, z := EncryptCore(pk, a, r), EncryptCore(pk, b, s), EncryptCore(pk, a + b, Add(r, s));
    EncryptLogs(pk, a, r);
    EncryptLogs(pk, b, s);
    EncryptLogs(pk, a + b, Add(r, s));
    SumOfBlinded(pk.log, a, r, b, s, x.c2.log, y.c2.log, z.c2.log);
    CongIffReduce(x.c2.log + y.c2.log, z.c2.log);
    ReduceScalar(z.c2.log);
  }

  lemma SumOfBlinded(k: int, a: int, r: int, b: int, s: int, x: int, y: int, z: int)
    requires Cong(x, a + k * r) && Cong(y, b + k * s) && Cong(z, a + b + k * Reduce(r + s))
    ensures Cong(x + y, z)
  {
    hide Cong, Reduce;
    CongAdd(x, a + k * r, y, b + k * s);
    CongReduce(r + s);
    CongSym(Reduce(r + s), r + s);
    CongRefl(k);
    CongRefl(a + b);
    CongMul(k, k, r + s, Reduce(r + s));
    CongAdd(a + b, a + b, k * (r + s), k * Reduce(r + s));
    assert a + k * r + (b + k * s) == a + b + k * (r + s);
    CongTrans(x + y, a + b + k * (r + s), a + b + k * Reduce(r + s));
    CongSym(z, a + b + k * Reduce(r + s));
    CongTrans(x + y, a + b + k * Reduce(r + s), z);
  }

  /** Removing sk*C1 from C2 leaves v*G. */
  lemma DecryptEncrypt(sk: Scalar, v: int, r: Scalar)
    ensures DecryptToPoint(sk, EncryptCore(PMul(Generator, sk), v, r)) == ValuePoint(v)
  {
    var ct := EncryptCore(PMul(Generator, sk), v, r);
    GeneratorMul(sk);
    EncryptLogs(PMul(Generator, sk), v, r);
    ValuePointLog(v);
    CongReduce(r * sk);
    assert sk * r == r * sk;
    CongSub(ct.c2.log, v + sk * r, Mul(r, sk), r * sk);
    CongIffReduce(ct.c2.log - Mul(r, sk), v);
  }

  /** A value below Q is determined by its point. */
  lemma ValuePointInjective(v: int, w: int)
    requires 0 <= v < Q && 0 <= w < Q && ValuePoint(v) == ValuePoint(w)
    ensures v == w
  {
    ValuePointLog(v);
    ValuePointLog(w);
    ReduceScalar(v);
    ReduceScalar(w);
  }
}
