/** The two Fiat-Shamir proofs: equality of discrete logarithms for partial decryptions
    (crypto/elgamal/dleq.go) and knowledge of the constant term (crypto/elgamal/dkg_pop.go). */
module Sigma {
  import opened Field
  import opened Group
  import opened ByteStrings
  import opened Ecies
  import opened Transcript

  // ----- group equations modulo Q

  /** z*p - e*q, the point both verifiers recompute. */
  function Response(p: Point, z: Scalar, q: Point, e: Scalar): Point {
    PSub(PMul(p, z), PMul(q, e))
  }

  lemma ResponseLog(p: Point, z: Scalar, q: Point, e: Scalar)
    ensures Cong(Response(p, z, q, e).log, p.log * z - q.log * e)
  {
    hide Cong, Reduce;
    CongReduce(p.log * z);
    CongReduce(q.log * e);
    CongSub(Mul(p.log, z), p.log * z, Mul(q.log, e), q.log * e);
    CongReduce(Mul(p.log, z) - Mul(q.log, e));
    CongTrans(Response(p, z, q, e).log, Mul(p.log, z) - Mul(q.log, e), p.log * z - q.log * e);
  }

  /** z = k + e*s makes the response equal k times the base. */
  lemma HonestResponse(p: Point, s: Scalar, k: Scalar, e: Scalar)
    ensures Response(p, Add(Mul(e, s), k), PMul(p, s), e) == PMul(p, k)
  {
    var l: int, z: int, d: int := p.log, Add(Mul(e, s), k), Mul(p.log, s);
    ResponseLog(p, Add(Mul(e, s), k), PMul(p, s), e);
    HonestZ(e, s, k);
    CongReduce(l * s);
    HonestCancel(l, z, e, s, k, d);
    CongTrans(Response(p, Add(Mul(e, s), k), PMul(p, s), e).log, l * z - d * e, l * k);
    CongIffReduce(Response(p, Add(Mul(e, s), k), PMul(p, s), e).log, l * k);
    ReduceScalar(Response(p, Add(Mul(e, s), k), PMul(p, s), e).log);
  }

  lemma HonestZ(e: Scalar, s: Scalar, k: Scalar)
    ensures Cong(Add(Mul(e, s), k), e * s + k)
  {
    hide Cong, Reduce;
    CongReduce(e * s);
    CongRefl(k);
    CongAdd(Mul(e, s), e * s, k, k);
    CongReduce(Mul(e, s) + k);
    CongTrans(Add(Mul(e, s), k), Mul(e, s) + k, e * s + k);
  }

  lemma HonestCancel(l: int, z: int, e: int, s: int, k: int, d: int)
    requires Cong(z, e * s + k) && Cong(d, l * s)
    ensures Cong(l * z - d * e, l * k)
  {
    hide Cong;
    CongRefl(l);
    CongRefl(e);
    CongMul(l, l, z, e * s + k);
    CongMul(d, l * s, e, e);
    CongSub(l * z, l * (e * s + k), d * e, l * s * e);
    assert l * (e * s + k) - l * s * e == l * k by {
      assert l * (e * s + k) == l * (e * s) + l * k && l * (e * s) == l * s * e;
    }
  }

  // ----- equality of discrete logarithms

  /** "svote-pd-dleq-v1" */
  const DLEQ_DOMAIN: Bytes := [115, 118, 111, 116, 101, 45, 112, 100, 45, 100, 108, 101, 113, 45, 118, 49]

  function DleqPreimage(u: Suite, vk: Point, c1: Point, di: Point, r1: Point, r2: Point): Bytes {
    DLEQ_DOMAIN + u.encPoint(Generator) + u.encPoint(vk) + u.encPoint(c1)
    + u.encPoint(di) + u.encPoint(r1) + u.encPoint(r2)
  }

  function DleqChallenge(u: Suite, vk: Point, c1: Point, di: Point, r1: Point, r2: Point): Scalar {
    u.toScalar(u.hash(DleqPreimage(u, vk, c1, di, r1, r2)))
  }

  /** Different statements or nonce points: different hash input. */
  lemma DleqPreimageInjective(u: Suite, vk: Point, c1: Point, di: Point, r1: Point, r2: Point,
                              vk': Point, c1': Point, di': Point, r1': Point, r2': Point)
    requires Lawful(u) && DleqPreimage(u, vk, c1, di, r1, r2) == DleqPreimage(u, vk', c1', di', r1', r2')
    ensures vk == vk' && c1 == c1' && di == di' && r1 == r1' && r2 == r2'
  {
    DleqBlocks(u, vk, c1, di, r1, r2);
    DleqBlocks(u, vk', c1', di', r1', r2');
    hide Lawful, DleqPreimage;
    var a, b := DleqPreimage(u, vk, c1, di, r1, r2), DleqPreimage(u, vk', c1', di', r1', r2');
    PointAt(u, a, b, 48, vk, vk');
    PointAt(u, a, b, 80, c1, c1');
    PointAt(u, a, b, 112, di, di');
    PointAt(u, a, b, 144, r1, r1');
    PointAt(u, a, b, 176, r2, r2');
  }

  /** The layout of the hash input: the domain tag and six points of 32 bytes. */
  lemma DleqBlocks(u: Suite, vk: Point, c1: Point, di: Point, r1: Point, r2: Point)
    requires Lawful(u)
    ensures var a := DleqPreimage(u, vk, c1, di, r1, r2);
      && |a| == 208 && a[..16] == DLEQ_DOMAIN && a[16..48] == u.encPoint(Generator)
      && a[48..80] == u.encPoint(vk) && a[80..112] == u.encPoint(c1) && a[112..144] == u.encPoint(di)
      && a[144..176] == u.encPoint(r1) && a[176..208] == u.encPoint(r2)
  {
    PointLength(u, Generator);
    PointLength(u, vk);
    PointLength(u, c1);
    PointLength(u, di);
    PointLength(u, r1);
    PointLength(u, r2);
    hide Lawful;
  }

  lemma PointLength(u: Suite, p: Point)
    requires Lawful(u)
    ensures |u.encPoint(p)| == 32
  {
  }

  lemma PointAt(u: Suite, a: Bytes, b: Bytes, i: nat, p: Point, q: Point)
    requires Lawful(u) && a == b && i + 32 <= |a| && a[i..i + 32] == u.encPoint(p) && b[i..i + 32] == u.encPoint(q)
    ensures p == q
  {
    assert u.decPoint(u.encPoint(p)) == u.decPoint(u.encPoint(q));
  }

  /** The proof e || z for D = share*C1; `k` is the nonce. */
  function GenerateDleq(u: Suite, share: Scalar, c1: Point, k: Scalar): Result<Bytes> {
    if share == 0 then Err
    else
      var e := DleqChallenge(u, PMul(Generator, share), c1, PMul(c1, share), PMul(Generator, k), PMul(c1, k));
      Ok(u.encScalar(e) + u.encScalar(Add(Mul(e, share), k)))
  }

  predicate VerifyDleq(u: Suite, proof: Bytes, vk: Point, c1: Point, di: Point) {
    && |proof| == 64 && vk != Identity && c1 != Identity
    && var e, z := u.decScalar(proof[..32]), u.decScalar(proof[32..]);
    && e.Some? && z.Some?
    && e.value == DleqChallenge(u, vk, c1, di,
                                Response(Generator, z.value, vk, e.value), Response(c1, z.value, di, e.value))
  }

  lemma ProofParts(u: Suite, a: Scalar, b: Scalar)
    requires Lawful(u)
    ensures var proof := u.encScalar(a) + u.encScalar(b);
      |proof| == 64 && u.decScalar(proof[..32]) == Some(a) && u.decScalar(proof[32..]) == Some(b)
  {
    var proof := u.encScalar(a) + u.encScalar(b);
    assert proof[..32] == u.encScalar(a) && proof[32..] == u.encScalar(b);
  }

  /** (e, z) answers for the nonce points r1 and r2. */
  ghost predicate AnswersDleq(vk: Point, c1: Point, di: Point, e: Scalar, z: Scalar, r1: Point, r2: Point) {
    PMul(Generator, z) == PAdd(r1, PMul(vk, e)) && PMul(c1, z) == PAdd(r2, PMul(di, e))
  }

  /** The proof encodes e and z, they answer for the nonce points, and e is the hash of the transcript. */
  ghost predicate DleqTranscript(u: Suite, proof: Bytes, vk: Point, c1: Point, di: Point, e: Scalar, z: Scalar,
                                 r1: Point, r2: Point)
  {
    && |proof| == 64 && u.decScalar(proof[..32]) == Some(e) && u.decScalar(proof[32..]) == Some(z)
    && AnswersDleq(vk, c1, di, e, z, r1, r2)
    && e == u.toScalar(u.hash(DleqPreimage(u, vk, c1, di, r1, r2)))
  }

  /** What acceptance means: for usable points, a proof is accepted if and only if it encodes a challenge
      and an answer for some nonce points such that the challenge is the hash of the whole transcript. */
  lemma DleqAcceptedExact(u: Suite, proof: Bytes, vk: Point, c1: Point, di: Point)
    ensures VerifyDleq(u, proof, vk, c1, di) <==>
      && vk != Identity && c1 != Identity
      && exists e, z, r1, r2 :: DleqTranscript(u, proof, vk, c1, di, e, z, r1, r2)
  {
    hide Response, AnswersDleq, DleqPreimage;
    if VerifyDleq(u, proof, vk, c1, di) {
      var e, z := u.decScalar(proof[..32]).value, u.decScalar(proof[32..]).value;
      var r1, r2 := Response(Generator, z, vk, e), Response(c1, z, di, e);
      AnswersAreResponses(vk, c1, di, e, z, r1, r2);
      assert DleqTranscript(u, proof, vk, c1, di, e, z, r1, r2);
    }
    if exists e, z, r1, r2 :: DleqTranscript(u, proof, vk, c1, di, e, z, r1, r2) {
      var e, z, r1, r2 :| DleqTranscript(u, proof, vk, c1, di, e, z, r1, r2);
      AnswersAreResponses(vk, c1, di, e, z, r1, r2);
    }
  }

  lemma AnswersAreResponses(vk: Point, c1: Point, di: Point, e: Scalar, z: Scalar, r1: Point, r2: Point)
    ensures AnswersDleq(vk, c1, di, e, z, r1, r2)
        <==> r1 == Response(Generator, z, vk, e) && r2 == Response(c1, z, di, e)
  {
    NonceEquation(Generator, z, vk, e, r1);
    NonceEquation(c1, z, di, e, r2);
  }

  /** z*p == r + e*q says that r is the response of (z, e). */
  lemma NonceEquation(p: Point, z: Scalar, q: Point, e: Scalar, r: Point)
    ensures PMul(p, z) == PAdd(r, PMul(q, e)) <==> r == Response(p, z, q, e)
  {
    var a: Scalar, m: Scalar := Mul(p.log, z), Mul(q.log, e);
    MovedTerm(a, m, r.log);
  }

  lemma MovedTerm(a: Scalar, m: Scalar, r: Scalar)
    ensures a == Add(r, m) <==> r == Sub(a, m)
  {
    CongIffReduce(a, r + m);
    CongIffReduce(a - m, r);
    ReduceScalar(a);
    ReduceScalar(r);
    assert Cong(a, r + m) <==> Cong(a - m, r) by {
      assert a - (r + m) == a - m - r;
    }
  }

  /** A proof is generated exactly for a non-zero share. It verifies against the honest key and partial
      exactly when C1 is a proper base, and its nonce points are the drawn nonce times G and C1. */
  lemma DleqComplete(u: Suite, share: Scalar, c1: Point, k: Scalar)
    requires Lawful(u)
    ensures GenerateDleq(u, share, c1, k).Ok? <==> share != 0
    ensures share != 0 ==> var proof := GenerateDleq(u, share, c1, k).value;
      && (VerifyDleq(u, proof, PMul(Generator, share), c1, PMul(c1, share)) <==> c1 != Identity)
      && exists e, z :: DleqTranscript(u, proof, PMul(Generator, share), c1, PMul(c1, share), e, z,
                                       PMul(Generator, k), PMul(c1, k))
  {
    hide Lawful, DleqPreimage;
    if share != 0 {
      var vk, di := PMul(Generator, share), PMul(c1, share);
      var e := DleqChallenge(u, vk, c1, di, PMul(Generator, k), PMul(c1, k));
      var z := Add(Mul(e, share), k);
      ProofParts(u, e, z);
      HonestResponse(Generator, share, k, e);
      HonestResponse(c1, share, k, e);
      NonIdentityMultiple(Generator, share);
      AnswersAreResponses(vk, c1, di, e, z, PMul(Generator, k), PMul(c1, k));
      assert DleqTranscript(u, GenerateDleq(u, share, c1, k).value, vk, c1, di, e, z, PMul(Generator, k), PMul(c1, k));
    }
  }

  // ----- special soundness

  /** The scalar that two answers to different challenges reveal. */
  function Extract(e: Scalar, z: Scalar, e': Scalar, z': Scalar): Scalar
    requires e != e'
  {
    DifferenceNonZero(e, e');
    Mul(Sub(z, z'), Inverse(Sub(e, e')))
  }

  lemma DifferenceNonZero(e: Scalar, e': Scalar)
    requires e != e'
    ensures Sub(e, e') != 0
  {
    if Sub(e, e') == 0 {
      CongReduce(e - e');
      CongSym(Sub(e, e'), e - e');
      assert Cong(e, e');
      ScalarUnique(e, e');
    }
  }

  lemma ExtractLaw(e: Scalar, z: Scalar, e': Scalar, z': Scalar)
    requires e != e'
    ensures Cong(Extract(e, z, e', z') * (e - e'), z - z')
  {
    DifferenceNonZero(e, e');
    ExtractQuotient(z - z', e - e', Sub(z, z'), Sub(e, e'), Inverse(Sub(e, e')));
  }

  lemma ExtractQuotient(n: int, d: int, rn: Scalar, rd: Scalar, i: Scalar)
    requires rn == Reduce(n) && rd == Reduce(d) && Cong(rd * i, 1)
    ensures Cong(Mul(rn, i) * d, n)
  {
    hide Cong;
    CongReduce(n);
    CongReduce(d);
    CongSym(rd, d);
    CongReduce(rn * i);
    CongMul(Mul(rn, i), rn * i, d, rd);
    CongMul(rn, n, rd * i, 1);
    assert (rn * i) * rd == rn * (rd * i);
    CongTrans(Mul(rn, i) * d, rn * (rd * i), n * 1);
  }

  /** Two responses with the same commitment point fix the logarithm of q to the base p. */
  lemma TwoResponses(p: Point, q: Point, e: Scalar, z: Scalar, e': Scalar, z': Scalar)
    requires e != e' && Response(p, z, q, e) == Response(p, z', q, e')
    ensures q == PMul(p, Extract(e, z, e', z'))
  {
    var w: int := Extract(e, z, e', z');
    ResponseLog(p, z, q, e);
    ResponseLog(p, z', q, e');
    ExtractLaw(e, z, e', z');
    var r: int := Response(p, z, q, e).log;
    SolveForLog(p.log, q.log, e, z, e', z', r, w);
    CongIffReduce(q.log, p.log * w);
    ReduceScalar(q.log);
  }

  lemma SolveForLog(p: int, q: int, e: Scalar, z: Scalar, e': Scalar, z': Scalar, r: int, w: int)
    requires Cong(r, p * z - q * e) && Cong(r, p * z' - q * e') && Cong(w * (e - e'), z - z') && e != e'
    ensures Cong(q, p * w)
  {
    var d: int := e - e';
    assert !Cong(d, 0) by { if Cong(d, 0) { ScalarUnique(e, e'); } }
    hide Cong;
    CongSub(r, p * z - q * e, r, p * z' - q * e');
    CongRefl(p);
    CongMul(p, p, w * d, z - z');
    CongSub(p * (w * d), p * (z - z'), r - r, (p * z - q * e) - (p * z' - q * e'));
    SolveAlgebra(p, q, e, z, e', z', w);
    assert Cong((p * w) * d, q * d);
    CongSym((p * w) * d, q * d);
    Cancel(q, p * w, d);
  }

  lemma SolveAlgebra(p: int, q: int, e: int, z: int, e': int, z': int, w: int)
    ensures p * (z - z') - ((p * z - q * e) - (p * z' - q * e')) == q * (e - e')
    ensures p * (w * (e - e')) == (p * w) * (e - e')
  {
  }

  /** Special soundness: accepting answers to two different challenges for the same nonce points
      determine a scalar that is both the key's and the partial decryption's logarithm. */
  lemma DleqSpecialSoundness(vk: Point, c1: Point, di: Point, e: Scalar, z: Scalar, e': Scalar, z': Scalar)
    requires e != e'
    requires Response(Generator, z, vk, e) == Response(Generator, z', vk, e')
    requires Response(c1, z, di, e) == Response(c1, z', di, e')
    ensures vk == PMul(Generator, Extract(e, z, e', z')) && di == PMul(c1, Extract(e, z, e', z'))
  {
    TwoResponses(Generator, vk, e, z, e', z');
    TwoResponses(c1, di, e, z, e', z');
  }

  /** Soundness over accepted proofs: two proofs of one statement, accepted under two hash functions with
      the same nonce points and different challenges, determine the share behind key and partial. */
  lemma DleqSoundness(u: Suite, h: Bytes -> Bytes, proof: Bytes, proof': Bytes, vk: Point, c1: Point, di: Point,
                      e: Scalar, z: Scalar, e': Scalar, z': Scalar, r1: Point, r2: Point)
    requires DleqTranscript(u, proof, vk, c1, di, e, z, r1, r2)
    requires DleqTranscript(u.(hash := h), proof', vk, c1, di, e', z', r1, r2) && e != e'
    ensures vk == PMul(Generator, Extract(e, z, e', z')) && di == PMul(c1, Extract(e, z, e', z'))
  {
    AnswersAreResponses(vk, c1, di, e, z, r1, r2);
    AnswersAreResponses(vk, c1, di, e', z', r1, r2);
    DleqSpecialSoundness(vk, c1, di, e, z, e', z');
  }

  /** For a false statement, each pair of nonce points has at most one challenge under which a proof is
      accepted, whatever the hash function. */
  lemma FalseStatementOneChallenge(u: Suite, h: Bytes -> Bytes, proof: Bytes, proof': Bytes, vk: Point, c1: Point,
                                   di: Point, e: Scalar, z: Scalar, e': Scalar, z': Scalar, r1: Point, r2: Point)
    requires di != PMul(c1, vk.log)
    requires DleqTranscript(u, proof, vk, c1, di, e, z, r1, r2)
    requires DleqTranscript(u.(hash := h), proof', vk, c1, di, e', z', r1, r2)
    ensures e == e'
  {
    AnswersAreResponses(vk, c1, di, e, z, r1, r2);
    AnswersAreResponses(vk, c1, di, e', z', r1, r2);
    FalseStatementOneAnswer(vk, c1, di, e, z, e', z');
  }

  lemma FalseStatementOneAnswer(vk: Point, c1: Point, di: Point, e: Scalar, z: Scalar, e': Scalar, z': Scalar)
    requires di != PMul(c1, vk.log)
    requires Response(Generator, z, vk, e) == Response(Generator, z', vk, e')
    requires Response(c1, z, di, e) == Response(c1, z', di, e')
    ensures e == e'
  {
    if e != e' {
      DleqSpecialSoundness(vk, c1, di, e, z, e', z');
      GeneratorMul(Extract(e, z, e', z'));
    }
  }

  // ----- knowledge of the constant term

  function ConstantTermChallenge(u: Suite, b: Binding): Scalar {
    u.toScalar(u.hash(Preimage(b, u.encPoint(Generator))))
  }

  /** The proof R || z for the secret behind the first commitment; `nonce` is the non-zero sample the
      source draws. */
  function GenerateConstantTerm(u: Suite, secret: Scalar, chainId: Bytes, roundId: Bytes, dealer: Bytes,
                                commitments: seq<Bytes>, nonce: Scalar): Result<Bytes>
  {
    if secret == 0 || commitments == [] then Err
    else match UnmarshalPublicKey(u, commitments[0])
      case Err => Err
      case Ok(constant) =>
        if PMul(Generator, secret) != constant then Err
        else
          var r := PMul(Generator, nonce);
          var c := ConstantTermChallenge(u, Binding(chainId, roundId, dealer, commitments, u.encPoint(r)));
          Ok(u.encPoint(r) + u.encScalar(Add(nonce, Mul(c, secret))))
  }

  predicate VerifyConstantTerm(u: Suite, proof: Bytes, chainId: Bytes, roundId: Bytes, dealer: Bytes,
                               commitments: seq<Bytes>)
  {
    && |proof| == 64 && commitments != []
    && var constant, r, z := UnmarshalPublicKey(u, commitments[0]), UnmarshalPublicKey(u, proof[..32]),
      u.decScalar(proof[32..]);
    && constant.Ok? && r.Ok? && z.Some?
    && var c := ConstantTermChallenge(u, Binding(chainId, roundId, dealer, commitments, u.encPoint(r.value)));
    PMul(Generator, z.value) == PAdd(r.value, PMul(constant.value, c))
  }

  /** The proof encodes R and z, and z*G == R + c*P for the hash c of the transcript. */
  ghost predicate ConstantTermTranscript(u: Suite, proof: Bytes, chainId: Bytes, roundId: Bytes, dealer: Bytes,
                                         commitments: seq<Bytes>, p: Point, r: Point, z: Scalar, c: Scalar)
  {
    && |proof| == 64 && commitments != [] && |commitments[0]| == 32
    && u.decPoint(commitments[0]) == Some(p) && p != Identity
    && u.decPoint(proof[..32]) == Some(r) && r != Identity && u.decScalar(proof[32..]) == Some(z)
    && c == u.toScalar(u.hash(Preimage(Binding(chainId, roundId, dealer, commitments, u.encPoint(r)),
                                       u.encPoint(Generator))))
    && PMul(Generator, z) == PAdd(r, PMul(p, c))
  }

  /** What acceptance means: a proof is accepted if and only if it encodes a usable R and a z that answers
      the hash of chain, round, dealer, commitments and R for the first commitment. */
  lemma ConstantTermAcceptedExact(u: Suite, proof: Bytes, chainId: Bytes, roundId: Bytes, dealer: Bytes,
                                  commitments: seq<Bytes>)
    ensures VerifyConstantTerm(u, proof, chainId, roundId, dealer, commitments) <==>
      exists p, r, z, c :: ConstantTermTranscript(u, proof, chainId, roundId, dealer, commitments, p, r, z, c)
  {
    hide Preimage, PMul, PAdd;
    if VerifyConstantTerm(u, proof, chainId, roundId, dealer, commitments) {
      var p, r := UnmarshalPublicKey(u, commitments[0]).value, UnmarshalPublicKey(u, proof[..32]).value;
      var z := u.decScalar(proof[32..]).value;
      var c := ConstantTermChallenge(u, Binding(chainId, roundId, dealer, commitments, u.encPoint(r)));
      assert ConstantTermTranscript(u, proof, chainId, roundId, dealer, commitments, p, r, z, c);
    }
    if exists p, r, z, c :: ConstantTermTranscript(u, proof, chainId, roundId, dealer, commitments, p, r, z, c) {
      var p, r, z, c :| ConstantTermTranscript(u, proof, chainId, roundId, dealer, commitments, p, r, z, c);
    }
  }

  /** A proof is generated if and only if the secret is not zero and is the one behind the first commitment. */
  lemma ConstantTermGeneratedExact(u: Suite, secret: Scalar, chainId: Bytes, roundId: Bytes, dealer: Bytes,
                                   commitments: seq<Bytes>, nonce: Scalar)
    ensures GenerateConstantTerm(u, secret, chainId, roundId, dealer, commitments, nonce).Ok? <==>
      && secret != 0 && commitments != [] && |commitments[0]| == 32
      && u.decPoint(commitments[0]) == Some(PMul(Generator, secret))
  {
    NonIdentityMultiple(Generator, secret);
  }

  /** A generated proof verifies: for the honest secret and a non-zero nonce, against the same chain,
      round, dealer and commitments, with the drawn nonce times G as its R. */
  lemma ConstantTermComplete(u: Suite, secret: Scalar, chainId: Bytes, roundId: Bytes, dealer: Bytes,
                             commitments: seq<Bytes>, nonce: Scalar)
    requires Lawful(u) && nonce != 0
    requires GenerateConstantTerm(u, secret, chainId, roundId, dealer, commitments, nonce).Ok?
    ensures var proof := GenerateConstantTerm(u, secret, chainId, roundId, dealer, commitments, nonce).value;
      && VerifyConstantTerm(u, proof, chainId, roundId, dealer, commitments)
      && u.decPoint(proof[..32]) == Some(PMul(Generator, nonce))
  {
    var r := PMul(Generator, nonce);
    var c := ConstantTermChallenge(u, Binding(chainId, roundId, dealer, commitments, u.encPoint(r)));
    var z := Add(nonce, Mul(c, secret));
    var proof := u.encPoint(r) + u.encScalar(z);
    assert proof[..32] == u.encPoint(r) && proof[32..] == u.encScalar(z);
    NonIdentityMultiple(Generator, nonce);
    assert z == Add(Mul(c, secret), nonce);
    HonestResponse(Generator, secret, nonce, c);
    NonceEquation(Generator, z, PMul(Generator, secret), c, r);
  }

  /** Soundness over accepted proofs: two of them with the same R, accepted under two hash functions with
      different challenges, give the discrete logarithm of the constant term. */
  lemma ConstantTermSoundness(u: Suite, h: Bytes -> Bytes, proof: Bytes, proof': Bytes, chainId: Bytes,
                              roundId: Bytes, dealer: Bytes, commitments: seq<Bytes>, p: Point, r: Point, z: Scalar,
                              c: Scalar, z': Scalar, c': Scalar)
    requires ConstantTermTranscript(u, proof, chainId, roundId, dealer, commitments, p, r, z, c)
    requires ConstantTermTranscript(u.(hash := h), proof', chainId, roundId, dealer, commitments, p, r, z', c')
    requires c != c'
    ensures p == PMul(Generator, Extract(c, z, c', z'))
  {
    ConstantTermSpecialSoundness(p, r, c, z, c', z');
  }

  /** Special soundness for the constant term. */
  lemma ConstantTermSpecialSoundness(p: Point, r: Point, c: Scalar, z: Scalar, c': Scalar, z': Scalar)
    requires c != c'
    requires PMul(Generator, z) == PAdd(r, PMul(p, c)) && PMul(Generator, z') == PAdd(r, PMul(p, c'))
    ensures p == PMul(Generator, Extract(c, z, c', z'))
  {
    NonceEquation(Generator, z, p, c, r);
    NonceEquation(Generator, z', p, c', r);
    TwoResponses(Generator, p, c, z, c', z');
  }
}
