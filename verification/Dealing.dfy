/** Dealing a contribution (app/prepare_proposal_ceremony.go) and the completeness of the ceremony:
    when everybody deals honestly, everybody can acknowledge. */
module Dealing {
  import opened Field
  import opened Polynomial
  import opened Lagrange
  import opened Group
  import opened ElGamal
  import opened Feldman
  import opened Shamir
  import opened ByteStrings
  import opened Ecies
  import opened Round
  import opened Ceremony

  /** One dealer's secrets: the polynomial and the ephemeral scalar used towards each validator. */
  datatype Dealer = Dealer(address: Address, coeffs: seq<Scalar>, ephemerals: seq<Scalar>)

  /** Shares are dealt by list position: validator i gets the value at i + 1. */
  function ShareFor(d: Dealer, i: nat): Scalar {
    Reduce(Eval(d.coeffs, i + 1))
  }

  function EnvelopeFor(u: Suite, vs: seq<Validator>, d: Dealer, i: nat): Result<Envelope>
    requires i < |vs| && |d.ephemerals| == |vs|
  {
    Encrypt(u, Generator, vs[i].pallasPk, u.encScalar(ShareFor(d, i)), d.ephemerals[i])
  }

  /** The payloads for the first n validators, skipping the dealer itself. */
  function Payloads(u: Suite, vs: seq<Validator>, d: Dealer, n: nat): Result<seq<WirePayload>>
    requires n <= |vs| && |d.ephemerals| == |vs|
  {
    if n == 0 then Ok([])
    else match Payloads(u, vs, d, n - 1)
      case Err => Err
      case Ok(front) =>
        if vs[n - 1].address == d.address then Ok(front)
        else match EnvelopeFor(u, vs, d, n - 1)
          case Err => Err
          case Ok(env) => Ok(front + [WirePayload(vs[n - 1].address, u.encPoint(env.ephemeral), env.ciphertext)])
  }

  function ContributionOf(u: Suite, vs: seq<Validator>, d: Dealer): WireContribution
    requires |d.ephemerals| == |vs| && Payloads(u, vs, d, |vs|).Ok?
  {
    WireContribution(d.address, EncodePoints(u, Commit(Generator, d.coeffs)), Payloads(u, vs, d, |vs|).value)
  }

  /** The contribution handler. It does nothing unless the proposer is a ceremony validator that has not
      contributed and the secret is not zero. Then it writes the coefficient file, if there is a
      ceremony directory, and after that deals the message unless an envelope cannot be sealed; the
      file is there in either case. */
  method DealContribution(u: Suite, vs: seq<Validator>, contributed: seq<Address>, proposer: Address,
                          secret: Scalar, random: seq<Scalar>, ephemerals: seq<Scalar>, ceremonyDir: bool)
    returns (r: Result<WireContribution>, file: Option<Bytes>)
    requires |random| >= |vs| && |ephemerals| == |vs|
    ensures !(FindValidator(vs, proposer).Some? && proposer !in contributed && secret != 0) ==> r.Err? && file.None?
    ensures FindValidator(vs, proposer).Some? && proposer !in contributed && secret != 0 ==>
      && |vs| >= 1 && 1 <= ThresholdForN(|vs|).value <= |vs|
      && var d := Dealer(proposer, [secret] + random[..ThresholdForN(|vs|).value - 1], ephemerals);
      && (r.Ok? <==> Payloads(u, vs, d, |vs|).Ok?)
      && (r.Ok? ==> r.value == ContributionOf(u, vs, d))
      && file == if ceremonyDir then Some(WriteCoeffs(u, d.coeffs)) else None
  {
    if FindValidator(vs, proposer).None? || proposer in contributed {
      return Err, None;
    }
    QuorumCoversThreshold(|vs|);
    var n := |vs|;
    var t := ThresholdForN(n).value;
    var split := Split(secret, t, n, random);
    var shares, coeffs := split.value.0, split.value.1;
    var commitments := FeldmanCommit(Generator, coeffs);
    // The proof of knowledge of the constant term refuses a zero secret.
    if secret == 0 {
      return Err, None;
    }
    ghost var d := Dealer(proposer, coeffs, ephemerals);
    file := if ceremonyDir then Some(WriteCoeffs(u, coeffs)) else None;
    var payloads: seq<WirePayload> := [];
    for i := 0 to n
      invariant Payloads(u, vs, d, i) == Ok(payloads)
    {
      EvalIsPowerSum(coeffs, i + 1);
      if vs[i].address != proposer {
        var env := Encrypt(u, Generator, vs[i].pallasPk, u.encScalar(shares[i].value), ephemerals[i]);
        if env.Err? {
          PayloadsStop(u, vs, d, i + 1, n);
          return Err, file;
        }
        payloads := payloads + [WirePayload(vs[i].address, u.encPoint(env.value.ephemeral), env.value.ciphertext)];
      }
    }
    return Ok(WireContribution(proposer, EncodePoints(u, commitments.value), payloads)), file;
  }

  lemma {:induction false} PayloadsStop(u: Suite, vs: seq<Validator>, d: Dealer, i: nat, n: nat)
    requires i <= n <= |vs| && |d.ephemerals| == |vs| && Payloads(u, vs, d, i).Err?
    ensures Payloads(u, vs, d, n).Err?
  {
    if i < n {
      PayloadsStop(u, vs, d, i, n - 1);
    }
  }

  // ----- delivery

  ghost predicate KeyPairs(vs: seq<Validator>, sks: seq<Scalar>) {
    |sks| == |vs| &&
    (forall i :: 0 <= i < |vs| ==> sks[i] != 0 && vs[i].pallasPk == PMul(Generator, sks[i])) &&
    (forall i, j :: 0 <= i < j < |vs| ==> vs[i].address != vs[j].address)
  }

  ghost predicate GoodEphemerals(vs: seq<Validator>, d: Dealer) {
    |d.ephemerals| == |vs| && forall i :: 0 <= i < |vs| ==> d.ephemerals[i] != 0
  }

  lemma {:induction false} PayloadsSucceed(u: Suite, vs: seq<Validator>, sks: seq<Scalar>, d: Dealer, n: nat)
    requires Lawful(u) && KeyPairs(vs, sks) && GoodEphemerals(vs, d) && n <= |vs|
    ensures Payloads(u, vs, d, n).Ok?
  {
    if n > 0 {
      PayloadsSucceed(u, vs, sks, d, n - 1);
      RoundTrip(u, Generator, sks[n - 1], u.encScalar(ShareFor(d, n - 1)), d.ephemerals[n - 1]);
    }
  }

  lemma {:induction false} FindAppended(ps: seq<WirePayload>, p: WirePayload, a: Address)
    ensures FindPayload(ps + [p], a)
         == if FindPayload(ps, a).Some? then FindPayload(ps, a) else if p.to == a then Some(p) else None
  {
    if ps == [] {
      assert ps + [p] == [p];
    } else {
      assert (ps + [p])[1..] == ps[1..] + [p];
      FindAppended(ps[1..], p, a);
    }
  }

  /** Each validator finds exactly the envelope sealed for its position. */
  lemma {:induction false} PayloadFound(u: Suite, vs: seq<Validator>, sks: seq<Scalar>, d: Dealer, n: nat, i: nat)
    requires KeyPairs(vs, sks) && |d.ephemerals| == |vs| && n <= |vs| && i < |vs| && vs[i].address != d.address
    requires Payloads(u, vs, d, n).Ok?
    ensures var found := FindPayload(Payloads(u, vs, d, n).value, vs[i].address);
      if i < n then
        && EnvelopeFor(u, vs, d, i).Ok?
        && var env := EnvelopeFor(u, vs, d, i).value;
        found == Some(WirePayload(vs[i].address, u.encPoint(env.ephemeral), env.ciphertext))
      else found == None
  {
    if n > 0 {
      PayloadFound(u, vs, sks, d, n - 1, i);
      if vs[n - 1].address != d.address {
        var env := EnvelopeFor(u, vs, d, n - 1).value;
        var p := WirePayload(vs[n - 1].address, u.encPoint(env.ephemeral), env.ciphertext);
        FindAppended(Payloads(u, vs, d, n - 1).value, p, vs[i].address);
      }
    }
  }

  lemma {:induction false} HonestShareMatches(d: Dealer, i: nat)
    ensures ShareMatches(Generator, Commit(Generator, d.coeffs), i + 1, ShareFor(d, i))
  {
    EvalIsPowerSum(d.coeffs, i + 1);
    VerifyExact(Generator, d.coeffs, i + 1, ShareFor(d, i));
  }

  /** An honestly dealt share arrives exactly when it is not zero: a zero share cannot be parsed. */
  lemma {:induction false} ShareDelivered(u: Suite, vs: seq<Validator>, sks: seq<Scalar>, d: Dealer, i: nat)
    requires Lawful(u) && KeyPairs(vs, sks) && GoodEphemerals(vs, d) && d.coeffs != []
    requires i < |vs| && vs[i].address != d.address && Payloads(u, vs, d, |vs|).Ok?
    ensures ReceivedShare(u, sks[i], ContributionOf(u, vs, d), vs[i].address, i + 1)
         == if ShareFor(d, i) == 0 then Err else Ok(ShareFor(d, i))
  {
    PayloadFound(u, vs, sks, d, |vs|, i);
    var env := EnvelopeFor(u, vs, d, i).value;
    RoundTrip(u, Generator, sks[i], u.encScalar(ShareFor(d, i)), d.ephemerals[i]);
    DecodeEncoded(u, Commit(Generator, d.coeffs));
    HonestShareMatches(d, i);
    assert UnmarshalPublicKey(u, u.encPoint(env.ephemeral)) == Ok(env.ephemeral);
  }

  // ----- completeness

  ghost predicate HonestDealers(u: Suite, vs: seq<Validator>, ds: seq<Dealer>, t: nat) {
    && (forall k :: 0 <= k < |ds| ==>
      && GoodEphemerals(vs, ds[k]) && |ds[k].coeffs| == t && Payloads(u, vs, ds[k], |vs|).Ok?)
    && forall k, l :: 0 <= k < l < |ds| ==> ds[k].address != ds[l].address
  }

  ghost function AllContributions(u: Suite, vs: seq<Validator>, ds: seq<Dealer>, t: nat): (cs: seq<WireContribution>)
    requires HonestDealers(u, vs, ds, t)
    ensures |cs| == |ds|
  {
    seq(|ds|, k requires 0 <= k < |ds| => ContributionOf(u, vs, ds[k]))
  }

  ghost function CommitmentsOf(ds: seq<Dealer>): (v: seq<seq<Point>>)
    ensures |v| == |ds|
  {
    seq(|ds|, k requires 0 <= k < |ds| => Commit(Generator, ds[k].coeffs))
  }

  /** The round after the last contribution: the chain has stored the combined commitments. */
  ghost function DealtFrom(u: Suite, vs: seq<Validator>, ds: seq<Dealer>, t: nat): DealtRound
    requires HonestDealers(u, vs, ds, t)
  {
    DealtRound(t, EncodePoints(u, CombinedVector(CommitmentsOf(ds), t)), AllContributions(u, vs, ds, t))
  }

  ghost predicate NonZeroShares(ds: seq<Dealer>, a: Address, i: nat) {
    forall k :: 0 <= k < |ds| && ds[k].address != a ==> ShareFor(ds[k], i) != 0
  }

  lemma {:induction false} SumSucceeds(u: Suite, vs: seq<Validator>, sks: seq<Scalar>, ds: seq<Dealer>, t: nat,
                                       i: nat, own: Scalar)
    requires Lawful(u) && KeyPairs(vs, sks) && t > 0 && HonestDealers(u, vs, ds, t) && i < |vs|
    ensures SumReceived(u, sks[i], AllContributions(u, vs, ds, t), vs[i].address, i + 1, own).Ok?
         <==> NonZeroShares(ds, vs[i].address, i)
    decreases |ds|
  {
    hide Payloads, ReceivedShare, ShareFor, Lawful, KeyPairs, GoodEphemerals;
    if ds != [] {
      var n := |ds| - 1;
      SumSucceeds(u, vs, sks, ds[..n], t, i, own);
      assert AllContributions(u, vs, ds, t)[..n] == AllContributions(u, vs, ds[..n], t);
      assert NonZeroShares(ds, vs[i].address, i) <==>
        NonZeroShares(ds[..n], vs[i].address, i) && (ds[n].address != vs[i].address ==> ShareFor(ds[n], i) != 0);
      if ds[n].address != vs[i].address {
        ShareDelivered(u, vs, sks, ds[n], i);
      }
    }
  }

  lemma {:induction false} DealtVectors(u: Suite, vs: seq<Validator>, ds: seq<Dealer>, t: nat)
    requires Lawful(u) && t > 0 && HonestDealers(u, vs, ds, t)
    ensures AllDecodable(u, AllContributions(u, vs, ds, t), t)
    ensures Vectors(u, AllContributions(u, vs, ds, t), t) == CommitmentsOf(ds)
  {
    var cs := AllContributions(u, vs, ds, t);
    forall k | 0 <= k < |ds|
      ensures Decodable(u, cs[k].commitments) && |cs[k].commitments| == t
      ensures DecodePoints(u, cs[k].commitments) == CommitmentsOf(ds)[k]
    {
      DecodeEncoded(u, Commit(Generator, ds[k].coeffs));
    }
  }

  /** The polynomial all combined shares lie on: the column sums of the dealers' coefficients. */
  ghost function JointPolynomial(ds: seq<Dealer>, t: nat): (f: seq<int>)
    requires SameLength(CommitmentsOf(ds), t)
    ensures |f| == t
  {
    Columns(CommitmentsOf(ds), t)
  }

  lemma {:induction false} JointIsSum(ds: seq<Dealer>, t: nat, x: int)
    requires SameLength(CommitmentsOf(ds), t)
    ensures Eval(JointPolynomial(ds, t), x) == SumOfDealers(ds, x)
  {
    ColumnsEval(CommitmentsOf(ds), t, x);
    SumAtIsSum(ds, x);
  }

  /** The sum of the dealers' own polynomials at x. */
  ghost function SumOfDealers(ds: seq<Dealer>, x: int): int {
    if ds == [] then 0 else SumOfDealers(ds[..|ds| - 1], x) + Eval(ds[|ds| - 1].coeffs, x)
  }

  lemma {:induction false} SumAtIsSum(ds: seq<Dealer>, x: int)
    ensures SumAt(CommitmentsOf(ds), x) == SumOfDealers(ds, x)
  {
    hide Eval, Commit;
    if ds != [] {
      var n := |ds| - 1;
      SumAtIsSum(ds[..n], x);
      assert CommitmentsOf(ds)[..n] == CommitmentsOf(ds[..n]);
      OwnCommitment(ds[n].coeffs);
    }
  }

  /** Completeness: after honest dealing by any number of dealers in any order, the validator at
      position i, acting as dealer j, recovers the joint polynomial's value at the Shamir index stored
      for it, exactly when none of the shares sent to it is zero. Shares are dealt by position, so the
      stored indices must be the positions plus one, which the round invariant keeps. */
  lemma {:induction false} EveryAckSucceeds(u: Suite, vs: seq<Validator>, sks: seq<Scalar>, ds: seq<Dealer>, t: nat,
                                            i: nat, j: nat)
    requires Lawful(u) && KeyPairs(vs, sks) && t > 0 && HonestDealers(u, vs, ds, t) && vs == Reindex(vs)
    requires i < |vs| && j < |ds| && ds[j].address == vs[i].address
    ensures SameLength(CommitmentsOf(ds), t)
    ensures AckShare(u, sks[i], DealtFrom(u, vs, ds, t), vs[i].address, vs[i].shamirIndex, WriteCoeffs(u, ds[j].coeffs))
         == if NonZeroShares(ds, vs[i].address, i) then Ok(Reduce(Eval(JointPolynomial(ds, t), vs[i].shamirIndex)))
            else Err
  {
    hide AckShare, Payloads, WriteCoeffs, Eval, Columns, Lawful, KeyPairs, HonestDealers, NonZeroShares;
    assert vs[i].shamirIndex == i + 1 by { assert vs[i] == Reindex(vs)[i]; }
    AckAtPosition(u, vs, sks, ds, t, i, j);
  }

  lemma {:induction false} AckAtPosition(u: Suite, vs: seq<Validator>, sks: seq<Scalar>, ds: seq<Dealer>, t: nat,
                                         i: nat, j: nat)
    requires Lawful(u) && KeyPairs(vs, sks) && t > 0 && HonestDealers(u, vs, ds, t)
    requires i < |vs| && j < |ds| && ds[j].address == vs[i].address
    ensures SameLength(CommitmentsOf(ds), t)
    ensures AckShare(u, sks[i], DealtFrom(u, vs, ds, t), vs[i].address, i + 1, WriteCoeffs(u, ds[j].coeffs))
         == if NonZeroShares(ds, vs[i].address, i) then Ok(Reduce(Eval(JointPolynomial(ds, t), i + 1))) else Err
  {
    hide SumReceived, Payloads, Commit, CombinedVector, Columns, WriteCoeffs, LoadCoeffs, Eval, Reduce;
    hide NonZeroShares, Lawful, GoodEphemerals, OwnAndCombined;
    var r, coeffs := DealtFrom(u, vs, ds, t), ds[j].coeffs;
    var file := WriteCoeffs(u, coeffs);
    LoadWritten(u, coeffs);
    SumSucceeds(u, vs, sks, ds, t, i, Reduce(Eval(coeffs, i + 1)));
    CommitmentLengths(ds, t);
    if NonZeroShares(ds, vs[i].address, i) {
      HonestOwn(u, vs, ds, t, vs[i].address, j);
      DealtVectors(u, vs, ds, t);
      CombinedCheckCannotFail(u, sks[i], r, vs[i].address, i + 1, file, coeffs, j, 0);
      ColumnsEval(CommitmentsOf(ds), t, i + 1);
    }
  }

  lemma {:induction false} CommitmentLengths(ds: seq<Dealer>, t: nat)
    requires forall k :: 0 <= k < |ds| ==> |ds[k].coeffs| == t
    ensures SameLength(CommitmentsOf(ds), t)
  {
  }

  lemma {:induction false} HonestOwn(u: Suite, vs: seq<Validator>, ds: seq<Dealer>, t: nat, a: Address, j: nat)
    requires Lawful(u) && t > 0 && HonestDealers(u, vs, ds, t) && j < |ds| && ds[j].address == a
    ensures OwnAndCombined(u, DealtFrom(u, vs, ds, t), a, ds[j].coeffs, j)
  {
    hide Payloads, Columns, GoodEphemerals;
    DealtVectors(u, vs, ds, t);
    DecodeEncoded(u, Commit(Generator, ds[j].coeffs));
    DecodeEncoded(u, CombinedVector(CommitmentsOf(ds), t));
  }

  /** The sum of the dealers' secrets. */
  ghost function SumOfSecrets(ds: seq<Dealer>): int
    requires forall k :: 0 <= k < |ds| ==> ds[k].coeffs != []
  {
    if ds == [] then 0 else SumOfSecrets(ds[..|ds| - 1]) + ds[|ds| - 1].coeffs[0]
  }

  lemma {:induction false} SecretsAtZero(ds: seq<Dealer>)
    requires forall k :: 0 <= k < |ds| ==> ds[k].coeffs != []
    ensures SumOfDealers(ds, 0) == SumOfSecrets(ds)
  {
    if ds != [] {
      SecretsAtZero(ds[..|ds| - 1]);
    }
  }

  /** The published key is the joint polynomial's constant term times the generator, and that is the sum
      of the dealers' secrets. */
  lemma {:induction false} JointKey(ds: seq<Dealer>, t: nat)
    requires SameLength(CommitmentsOf(ds), t) && t > 0
    ensures CombinedVector(CommitmentsOf(ds), t)[0] == PMul(Generator, Reduce(Eval(JointPolynomial(ds, t), 0)))
    ensures forall k :: 0 <= k < |ds| ==> ds[k].coeffs != []
    ensures CombinedVector(CommitmentsOf(ds), t)[0] == PMul(Generator, Reduce(SumOfSecrets(ds)))
  {
    hide Eval, CombinedVector, Columns, Commit, Reduce;
    forall k | 0 <= k < |ds| ensures ds[k].coeffs != [] {
      assert |CommitmentsOf(ds)[k]| == t;
    }
    JointConstant(ds, t);
    JointIsSum(ds, t, 0);
    SecretsAtZero(ds);
  }

  lemma {:induction false} JointConstant(ds: seq<Dealer>, t: nat)
    requires SameLength(CommitmentsOf(ds), t) && t > 0
    ensures CombinedVector(CommitmentsOf(ds), t)[0] == PMul(Generator, Reduce(Eval(JointPolynomial(ds, t), 0)))
  {
    GeneratorMul(Reduce(Eval(JointPolynomial(ds, t), 0)));
  }

  /** From dealing to decryption: any t of the acknowledged shares, each multiplied into C1, open a
      ciphertext under the published key. */
  lemma {:induction false} CeremonySharesDecrypt(ds: seq<Dealer>, t: nat, positions: seq<nat>,
                                                 ps: seq<PartialDecryption>, ct: Ciphertext, v: int, r: Scalar)
    requires SameLength(CommitmentsOf(ds), t) && t > 0 && |ps| == |positions| >= t
    requires forall k :: 0 <= k < |positions| ==> positions[k] + 1 < Q
    requires forall k, l :: 0 <= k < l < |positions| ==> positions[k] != positions[l]
    requires forall k :: 0 <= k < |ps| ==> ps[k] == PartialDecryption(positions[k] + 1,
      PartialDecrypt(Reduce(Eval(JointPolynomial(ds, t), positions[k] + 1)), ct.c1))
    requires ct == EncryptCore(CombinedVector(CommitmentsOf(ds), t)[0], v, r)
    ensures Combinable(ps, t) && PSub(ct.c2, Combined(ps)) == ValuePoint(v)
  {
    var f := JointPolynomial(ds, t);
    forall k, l | 0 <= k < l < |ps| ensures !Cong(Indices(ps)[k], Indices(ps)[l]) {
      if Cong(Indices(ps)[k], Indices(ps)[l]) {
        ScalarUnique(positions[k] + 1, positions[l] + 1);
      }
    }
    ThresholdCombination(ps, f, ct.c1);
    JointKey(ds, t);
    DecryptEncrypt(Reduce(Eval(f, 0)), v, r);
  }
}
