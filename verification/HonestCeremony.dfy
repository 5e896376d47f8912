/** From honest dealing, through the chain's handlers, to shares that decrypt: the contributions that
    validators deal are the ones the chain accepts, the key it stores is theirs, and the shares they
    recover answer to it in every later state of the round. */
module HonestCeremony {
  import opened Field
  import opened Polynomial
  import opened Group
  import opened Feldman
  import opened ByteStrings
  import opened Ecies
  import opened Sigma
  import opened Round
  import opened Lifecycle
  import opened Ceremony
  import opened AckHandler
  import opened Dealing

  // ----- what the chain reads from a contribution

  ghost predicate Readable(u: Suite, c: WireContribution) {
    && Decodable(u, c.commitments)
    && forall i :: 0 <= i < |c.payloads| ==> UnmarshalPublicKey(u, c.payloads[i].ephemeralPk).Ok?
  }

  ghost function OnChain(u: Suite, c: WireContribution): Contribution
    requires Readable(u, c)
  {
    Contribution(c.from, DecodePoints(u, c.commitments), seq(|c.payloads|, i requires 0 <= i < |c.payloads| =>
      Payload(c.payloads[i].to, UnmarshalPublicKey(u, c.payloads[i].ephemeralPk).value)))
  }

  ghost predicate IsAmong(vs: seq<Validator>, n: nat, a: Address)
    requires n <= |vs|
  {
    exists j :: 0 <= j < n && vs[j].address == a
  }

  ghost predicate PayloadsFor(u: Suite, vs: seq<Validator>, n: nat, from: Address, ps: seq<WirePayload>)
    requires n <= |vs|
  {
    && |ps| == n - (if IsAmong(vs, n, from) then 1 else 0)
    && (forall k :: 0 <= k < |ps| ==>
      ps[k].to != from && IsAmong(vs, n, ps[k].to) && UnmarshalPublicKey(u, ps[k].ephemeralPk).Ok?)
    && forall k, l :: 0 <= k < l < |ps| ==> ps[k].to != ps[l].to
  }

  lemma {:induction false} AmongStep(vs: seq<Validator>, n: nat, a: Address)
    requires 0 < n <= |vs|
    ensures IsAmong(vs, n, a) <==> IsAmong(vs, n - 1, a) || vs[n - 1].address == a
  {
  }

  lemma {:induction false} PayloadsForStep(u: Suite, vs: seq<Validator>, n: nat, from: Address, ps: seq<WirePayload>,
                                           p: WirePayload)
    requires 0 < n <= |vs| && PayloadsFor(u, vs, n - 1, from, ps) && DistinctAddresses(vs)
    requires vs[n - 1].address != from ==> p.to == vs[n - 1].address && UnmarshalPublicKey(u, p.ephemeralPk).Ok?
    ensures vs[n - 1].address == from ==> PayloadsFor(u, vs, n, from, ps)
    ensures vs[n - 1].address != from ==> PayloadsFor(u, vs, n, from, ps + [p])
  {
    hide UnmarshalPublicKey;
    var a := vs[n - 1].address;
    assert !IsAmong(vs, n - 1, a);
    AmongStep(vs, n, from);
    forall k | 0 <= k < |ps| ensures IsAmong(vs, n, ps[k].to) && ps[k].to != a {
      AmongStep(vs, n, ps[k].to);
    }
    AmongStep(vs, n, a);
  }

  lemma {:induction false} DealtPayloadsFor(u: Suite, vs: seq<Validator>, d: Dealer, n: nat)
    requires Lawful(u) && DistinctAddresses(vs) && |d.ephemerals| == |vs| && n <= |vs|
    requires Payloads(u, vs, d, n).Ok?
    ensures PayloadsFor(u, vs, n, d.address, Payloads(u, vs, d, n).value)
  {
    hide PayloadsFor, Encrypt;
    if n == 0 {
      NoPayloads(u, vs, d.address);
    } else {
      DealtPayloadsFor(u, vs, d, n - 1);
      var ps := Payloads(u, vs, d, n - 1).value;
      var p := WirePayload(vs[n - 1].address, [], []);
      if vs[n - 1].address != d.address {
        var env := EnvelopeFor(u, vs, d, n - 1).value;
        p := WirePayload(vs[n - 1].address, u.encPoint(env.ephemeral), env.ciphertext);
        EphemeralReadable(u, Generator, vs[n - 1].pallasPk, u.encScalar(ShareFor(d, n - 1)), d.ephemerals[n - 1]);
      }
      PayloadsForStep(u, vs, n, d.address, ps, p);
    }
  }

  lemma {:induction false} NoPayloads(u: Suite, vs: seq<Validator>, from: Address)
    ensures PayloadsFor(u, vs, 0, from, [])
  {
  }

  lemma {:induction false} EphemeralReadable(u: Suite, g: Point, to: Point, m: Bytes, e: Scalar)
    requires Lawful(u) && Encrypt(u, g, to, m, e).Ok?
    ensures UnmarshalPublicKey(u, u.encPoint(Encrypt(u, g, to, m, e).value.ephemeral)).Ok?
  {
  }

  lemma {:induction false} HonestReadable(u: Suite, vs: seq<Validator>, d: Dealer)
    requires Lawful(u) && DistinctAddresses(vs) && |d.ephemerals| == |vs| && d.coeffs != []
    requires Payloads(u, vs, d, |vs|).Ok?
    ensures Readable(u, ContributionOf(u, vs, d))
    ensures OnChain(u, ContributionOf(u, vs, d)).from == d.address
    ensures OnChain(u, ContributionOf(u, vs, d)).commitments == Commit(Generator, d.coeffs)
  {
    hide Payloads, UnmarshalPublicKey;
    DealtPayloadsFor(u, vs, d, |vs|);
    DecodeEncoded(u, Commit(Generator, d.coeffs));
  }

  lemma {:induction false} HonestCover(u: Suite, r: VoteRound, d: Dealer)
    requires Lawful(u) && DistinctAddresses(r.validators) && |d.ephemerals| == |r.validators| && d.coeffs != []
    requires Payloads(u, r.validators, d, |r.validators|).Ok? && FindValidator(r.validators, d.address).Some?
    requires Readable(u, ContributionOf(u, r.validators, d))
    ensures PayloadsCover(r, d.address, OnChain(u, ContributionOf(u, r.validators, d)).payloads)
  {
    hide Payloads;
    var vs := r.validators;
    var wire := Payloads(u, vs, d, |vs|).value;
    var ps := OnChain(u, ContributionOf(u, vs, d)).payloads;
    DealtPayloadsFor(u, vs, d, |vs|);
    FindValidatorFinds(vs, d.address);
    assert IsAmong(vs, |vs|, d.address);
    forall k | 0 <= k < |ps|
      ensures ps[k].to != d.address && FindValidator(vs, ps[k].to).Some? && ps[k].ephemeral != Identity
    {
      assert ps[k].to == wire[k].to;
      FindValidatorFinds(vs, wire[k].to);
    }
  }

  // ----- proofs of the constant term

  /** What the proofs are bound to, and the nonces drawn for them. */
  datatype Context = Context(chainId: Bytes, roundId: Bytes, name: Address -> Bytes, nonce: Address -> Scalar)

  ghost predicate ProofAccepted(u: Suite, x: Context, d: Dealer)
    requires d.coeffs != []
  {
    var raw := EncodePoints(u, Commit(Generator, d.coeffs));
    var proof := GenerateConstantTerm(u, d.coeffs[0], x.chainId, x.roundId, x.name(d.address), raw, x.nonce(d.address));
    proof.Ok? && VerifyConstantTerm(u, proof.value, x.chainId, x.roundId, x.name(d.address), raw)
  }

  /** An honest dealer's proof is accepted exactly when its secret is not zero. */
  lemma {:induction false} HonestProof(u: Suite, x: Context, d: Dealer)
    requires Lawful(u) && d.coeffs != [] && x.nonce(d.address) != 0
    ensures ProofAccepted(u, x, d) <==> d.coeffs[0] != 0
  {
    hide VerifyConstantTerm, ConstantTermChallenge;
    var raw := EncodePoints(u, Commit(Generator, d.coeffs));
    if d.coeffs[0] != 0 {
      NonIdentityMultiple(Generator, d.coeffs[0]);
      assert UnmarshalPublicKey(u, raw[0]) == Ok(PMul(Generator, d.coeffs[0]));
      ConstantTermComplete(u, d.coeffs[0], x.chainId, x.roundId, x.name(d.address), raw, x.nonce(d.address));
    }
  }

  // ----- the chain's answer

  ghost predicate Honest(u: Suite, x: Context, vs: seq<Validator>, d: Dealer) {
    && |d.ephemerals| == |vs| && Payloads(u, vs, d, |vs|).Ok? && x.nonce(d.address) != 0
    && FindValidator(vs, d.address).Some? && 0 < |vs| && |d.coeffs| == ThresholdForN(|vs|).value
  }

  /** The handler's result for a dealer's contribution. */
  ghost function Submit(u: Suite, x: Context, vs: seq<Validator>, r: VoteRound, d: Dealer): Result<VoteRound>
    requires Lawful(u) && DistinctAddresses(vs) && Honest(u, x, vs, d)
  {
    QuorumCoversThreshold(|vs|);
    HonestReadable(u, vs, d);
    var c := OnChain(u, ContributionOf(u, vs, d));
    ContributeDKG(r, c.from, c.commitments, c.payloads, ProofAccepted(u, x, d))
  }

  lemma {:induction false} ZeroCommitment(coeffs: seq<Scalar>)
    ensures Identity in Commit(Generator, coeffs) <==> 0 in coeffs
  {
    forall i | 0 <= i < |coeffs| ensures Commit(Generator, coeffs)[i] == Identity <==> coeffs[i] == 0 {
      NonIdentityMultiple(Generator, coeffs[i]);
    }
    if Identity in Commit(Generator, coeffs) {
      var i :| 0 <= i < |coeffs| && Commit(Generator, coeffs)[i] == Identity;
      assert coeffs[i] == 0;
    }
    if 0 in coeffs {
      var i :| 0 <= i < |coeffs| && coeffs[i] == 0;
      assert Commit(Generator, coeffs)[i] == Identity;
    }
  }

  ghost function WithContribution(u: Suite, r: VoteRound, d: Dealer): VoteRound
    requires |d.ephemerals| == |r.validators| && Payloads(u, r.validators, d, |r.validators|).Ok?
    requires Readable(u, ContributionOf(u, r.validators, d))
  {
    r.(contributions := r.contributions + [OnChain(u, ContributionOf(u, r.validators, d))])
  }

  /** An honest contribution is accepted exactly when none of its coefficients is zero; the last one
      completes the ceremony. */
  lemma {:induction false} SubmitExact(u: Suite, x: Context, r: VoteRound, d: Dealer)
    requires Lawful(u) && DistinctAddresses(r.validators) && Honest(u, x, r.validators, d)
    requires r.status.Pending? && r.ceremony.Registering? && !HasContributed(r.contributions, d.address)
    ensures Readable(u, ContributionOf(u, r.validators, d))
    ensures var r' := WithContribution(u, r, d);
      Submit(u, x, r.validators, r, d) ==
        if 0 in d.coeffs then Err
        else if |r'.contributions| == |r.validators| then FinalizeDKG(r', ThresholdForN(|r.validators|).value)
        else Ok(r')
  {
    hide Payloads, FinalizeDKG, PayloadsCover, HasContributed, ProofAccepted, ThresholdForN, Readable, OnChain;
    QuorumCoversThreshold(|r.validators|);
    HonestReadable(u, r.validators, d);
    HonestCover(u, r, d);
    HonestProof(u, x, d);
    ZeroCommitment(d.coeffs);
    assert 0 !in d.coeffs ==> d.coeffs[0] != 0;
    ContributionEta(OnChain(u, ContributionOf(u, r.validators, d)));
  }

  lemma {:induction false} ContributionEta(c: Contribution)
    ensures c == Contribution(c.from, c.commitments, c.payloads)
  {
  }

  ghost predicate AllHonest(u: Suite, x: Context, vs: seq<Validator>, ds: seq<Dealer>) {
    && (forall k :: 0 <= k < |ds| ==> Honest(u, x, vs, ds[k]))
    && forall k, l :: 0 <= k < l < |ds| ==> ds[k].address != ds[l].address
  }

  /** The dealers' contributions, submitted one after another. */
  ghost function SubmitAll(u: Suite, x: Context, r: VoteRound, ds: seq<Dealer>): Result<VoteRound>
    requires Lawful(u) && DistinctAddresses(r.validators) && AllHonest(u, x, r.validators, ds)
  {
    if ds == [] then Ok(r)
    else
      var n := |ds| - 1;
      match SubmitAll(u, x, r, ds[..n])
      case Err => Err
      case Ok(r') => Submit(u, x, r.validators, r', ds[n])
  }

  ghost function Chained(u: Suite, vs: seq<Validator>, ds: seq<Dealer>): (cs: seq<Contribution>)
    requires Lawful(u) && DistinctAddresses(vs)
    requires forall k :: 0 <= k < |ds| ==>
      |ds[k].ephemerals| == |vs| && ds[k].coeffs != [] && Payloads(u, vs, ds[k], |vs|).Ok?
    ensures |cs| == |ds|
    ensures forall k :: 0 <= k < |ds| ==>
      cs[k].from == ds[k].address && cs[k].commitments == Commit(Generator, ds[k].coeffs)
  {
    if ds == [] then []
    else
      var n := |ds| - 1;
      HonestReadable(u, vs, ds[n]);
      Chained(u, vs, ds[..n]) + [OnChain(u, ContributionOf(u, vs, ds[n]))]
  }

  ghost predicate NoZeroCoefficient(ds: seq<Dealer>) {
    forall k :: 0 <= k < |ds| ==> 0 !in ds[k].coeffs
  }

  lemma {:induction false} HonestCoefficients(u: Suite, x: Context, vs: seq<Validator>, ds: seq<Dealer>)
    requires AllHonest(u, x, vs, ds)
    ensures ds != [] ==> |vs| > 0
    ensures forall k :: 0 <= k < |ds| ==> ds[k].coeffs != [] && |ds[k].coeffs| == ThresholdForN(|vs|).value
  {
    assert ds != [] ==> Honest(u, x, vs, ds[0]);
    hide Payloads;
    forall k | 0 <= k < |ds| ensures ds[k].coeffs != [] && |ds[k].coeffs| == ThresholdForN(|vs|).value {
      assert Honest(u, x, vs, ds[k]);
      QuorumCoversThreshold(|vs|);
    }
  }

  /** Submitted in any order, the contributions are all stored, exactly when no coefficient is zero; the
      one that makes the set complete finalizes the key. */
  lemma {:induction false} SubmitAllExact(u: Suite, x: Context, r: VoteRound, ds: seq<Dealer>)
    requires Lawful(u) && DistinctAddresses(r.validators) && AllHonest(u, x, r.validators, ds)
    requires r.status.Pending? && r.ceremony.Registering? && r.contributions == [] && |ds| <= |r.validators|
    ensures forall k :: 0 <= k < |ds| ==> ds[k].coeffs != []
    ensures var r' := r.(contributions := Chained(u, r.validators, ds));
      SubmitAll(u, x, r, ds) ==
        if !NoZeroCoefficient(ds) then Err
        else if |ds| == |r.validators| > 0 then FinalizeDKG(r', ThresholdForN(|r.validators|).value)
        else Ok(r')
    decreases |ds|
  {
    hide FinalizeDKG, Submit, Payloads, ThresholdForN, HasContributed, OnChain;
    HonestCoefficients(u, x, r.validators, ds);
    if ds != [] {
      var n := |ds| - 1;
      SubmitAllExact(u, x, r, ds[..n]);
      assert NoZeroCoefficient(ds) <==> NoZeroCoefficient(ds[..n]) && 0 !in ds[n].coeffs;
      if NoZeroCoefficient(ds[..n]) {
        var r' := r.(contributions := Chained(u, r.validators, ds[..n]));
        NewDealer(r'.contributions, ds, n);
        SubmitExact(u, x, r', ds[n]);
      }
    }
  }

  lemma {:induction false} NewDealer(cs: seq<Contribution>, ds: seq<Dealer>, n: nat)
    requires n < |ds| && |cs| == n && forall k, l :: 0 <= k < l < |ds| ==> ds[k].address != ds[l].address
    requires forall k :: 0 <= k < n ==> cs[k].from == ds[..n][k].address
    ensures !HasContributed(cs, ds[n].address)
  {
    assert forall k :: 0 <= k < n ==> ds[..n][k] == ds[k];
  }

  // ----- the completed ceremony

  ghost predicate JointNonZero(ds: seq<Dealer>, n: nat) {
    forall p :: 0 <= p <= n ==> Reduce(SumOfDealers(ds, p)) != 0
  }

  lemma {:induction false} CombinedIsSum(ds: seq<Dealer>, t: nat, p: int)
    requires SameLength(CommitmentsOf(ds), t)
    ensures CommitmentAt(CombinedVector(CommitmentsOf(ds), t), p) == PMul(Generator, Reduce(SumOfDealers(ds, p)))
  {
    CombinedAt(CommitmentsOf(ds), t, p);
    SumAtIsSum(ds, p);
    GeneratorMul(Reduce(SumOfDealers(ds, p)));
  }

  lemma {:induction false} ConstantIsSum(ds: seq<Dealer>, t: nat)
    requires SameLength(CommitmentsOf(ds), t) && t > 0
    ensures CombinedVector(CommitmentsOf(ds), t)[0] == PMul(Generator, Reduce(SumOfDealers(ds, 0)))
  {
    JointKey(ds, t);
    JointIsSum(ds, t, 0);
  }

  /** Finalizing succeeds exactly when the sum of the dealers' polynomials is not zero at 0, 1, ..., n. */
  lemma {:induction false} FinalizeExact(r: VoteRound, ds: seq<Dealer>, t: nat)
    requires ds != [] && t > 0 && SameLength(CommitmentsOf(ds), t)
    requires CommitmentVectors(r.contributions) == CommitmentsOf(ds)
    ensures FinalizeDKG(r, t).Ok? <==> JointNonZero(ds, |r.validators|)
    ensures FinalizeDKG(r, t).Ok? ==>
      var r' := FinalizeDKG(r, t).value;
      && r'.commitments == CombinedVector(CommitmentsOf(ds), t) && r'.eaPk == r'.commitments[0]
      && r' == r.(eaPk := r'.eaPk, commitments := r'.commitments, threshold := t,
                  validators := Reindex(r.validators), ceremony := Dealt)
  {
    hide SumOfDealers, CombinedVector, CommitmentAt, Commit, Reindex;
    var vs := CommitmentsOf(ds);
    var combined := CombinedVector(vs, t);
    assert vs[0] != [] && |vs[0]| == t;
    ConstantIsSum(ds, t);
    forall p | 0 <= p <= |r.validators|
      ensures (if p == 0 then combined[0] else CommitmentAt(combined, p)) == Identity
        <==> Reduce(SumOfDealers(ds, p)) == 0
    {
      CombinedIsSum(ds, t, p);
      NonIdentityMultiple(Generator, Reduce(SumOfDealers(ds, p)));
    }
    assert combined[0] == Identity <==> Reduce(SumOfDealers(ds, 0)) == 0;
  }

  lemma {:induction false} ChainedVectors(u: Suite, vs: seq<Validator>, ds: seq<Dealer>)
    requires Lawful(u) && DistinctAddresses(vs)
    requires forall k :: 0 <= k < |ds| ==>
      |ds[k].ephemerals| == |vs| && ds[k].coeffs != [] && Payloads(u, vs, ds[k], |vs|).Ok?
    ensures CommitmentVectors(Chained(u, vs, ds)) == CommitmentsOf(ds)
  {
    hide Commit, Payloads, Chained;
  }

  /** The whole honest ceremony on the chain: one contribution from every validator, in any order. It
      completes if and only if no coefficient is zero and the sum of the polynomials is zero at none of
      0, 1, ..., n; the chain then stores the combined commitments and the sum of the secrets as key. */
  lemma {:induction false} HonestCeremonyCompletes(u: Suite, x: Context, r: VoteRound, ds: seq<Dealer>)
    requires Lawful(u) && DistinctAddresses(r.validators) && AllHonest(u, x, r.validators, ds)
    requires r.status.Pending? && r.ceremony.Registering? && r.contributions == []
    requires |ds| == |r.validators| > 0 && r.validators == Reindex(r.validators)
    ensures var t := ThresholdForN(|r.validators|).value;
      && t > 0 && SameLength(CommitmentsOf(ds), t)
      && (SubmitAll(u, x, r, ds).Ok? <==> NoZeroCoefficient(ds) && JointNonZero(ds, |r.validators|))
      && (SubmitAll(u, x, r, ds).Ok? ==>
        var r' := SubmitAll(u, x, r, ds).value;
        && r'.commitments == CombinedVector(CommitmentsOf(ds), t) && r'.eaPk == r'.commitments[0]
        && r'.ceremony.Dealt? && r'.threshold == t && r'.validators == r.validators)
  {
    hide SubmitAll, FinalizeDKG, Payloads, CombinedVector, SumOfDealers, Commit, Chained;
    var vs, t := r.validators, ThresholdForN(|r.validators|).value;
    QuorumCoversThreshold(|vs|);
    HonestCoefficients(u, x, vs, ds);
    CommitmentLengths(ds, t);
    SubmitAllExact(u, x, r, ds);
    ChainedVectors(u, vs, ds);
    FinalizeExact(r.(contributions := Chained(u, vs, ds)), ds, t);
  }

  // ----- the recovered shares answer to the stored key

  lemma {:induction false} HonestDealersFrom(u: Suite, x: Context, vs: seq<Validator>, sks: seq<Scalar>,
                                             ds: seq<Dealer>, t: nat)
    requires AllHonest(u, x, vs, ds) && |vs| > 0 && t == ThresholdForN(|vs|).value
    requires forall k :: 0 <= k < |ds| ==> GoodEphemerals(vs, ds[k])
    ensures HonestDealers(u, vs, ds, t)
  {
    hide Payloads;
  }

  /** In the completed ceremony every validator to which no zero share was dealt recovers, from its file
      and the stored envelopes, a non-zero share that answers to its verification key; its share file
      reads back as that share. */
  lemma {:induction false} RecoveredShareAnswers(u: Suite, x: Context, r: VoteRound, sks: seq<Scalar>,
                                                 ds: seq<Dealer>, i: nat, j: nat)
    requires Lawful(u) && KeyPairs(r.validators, sks) && DistinctAddresses(r.validators)
    requires AllHonest(u, x, r.validators, ds) && forall k :: 0 <= k < |ds| ==> GoodEphemerals(r.validators, ds[k])
    requires r.status.Pending? && r.ceremony.Registering? && r.contributions == []
    requires |ds| == |r.validators| > 0 && r.validators == Reindex(r.validators)
    requires SubmitAll(u, x, r, ds).Ok?
    requires i < |r.validators| && j < |ds| && ds[j].address == r.validators[i].address
    requires NonZeroShares(ds, r.validators[i].address, i)
    ensures var vs, t, r' := r.validators, ThresholdForN(|r.validators|).value, SubmitAll(u, x, r, ds).value;
      && t > 0 && HonestDealers(u, vs, ds, t)
      && DealtFrom(u, vs, ds, t).commitments == EncodePoints(u, r'.commitments)
      && var dealt, file := DealtFrom(u, vs, ds, t), WriteCoeffs(u, ds[j].coeffs);
      && var ack := AckShare(u, sks[i], dealt, vs[i].address, vs[i].shamirIndex, file);
      && ack.Ok? && ShareMatches(Generator, r'.commitments, vs[i].shamirIndex, ack.value)
      && UnmarshalSecretKey(u, u.encScalar(ack.value)) == Ok(ack.value)
  {
    hide SubmitAll, Payloads, CombinedVector, SumOfDealers, Commit, AckShare, WriteCoeffs, NonZeroShares, Eval,
      KeyPairs;
    var vs, t := r.validators, ThresholdForN(|r.validators|).value;
    HonestCeremonyCompletes(u, x, r, ds);
    HonestDealersFrom(u, x, vs, sks, ds, t);
    EveryAckSucceeds(u, vs, sks, ds, t, i, j);
    var index := vs[i].shamirIndex;
    assert index == i + 1 by { assert vs[i] == Reindex(vs)[i]; }
    JointIsSum(ds, t, index);
    CombinedIsSum(ds, t, index);
  }

  // ----- and keep answering to it

  /** Once dealt, the key, the commitments and the indices of the remaining validators are fixed. */
  lemma {:induction false} StepKeepsKey(s: State, e: Event)
    requires !s.round.ceremony.Registering?
    ensures var s' := Next(s, e);
      && s'.round.commitments == s.round.commitments && s'.round.eaPk == s.round.eaPk
      && !s'.round.ceremony.Registering?
      && forall v :: v in s'.round.validators ==> v in s.round.validators
  {
    KeptValidators(s.round.validators, s.round.acks);
  }

  lemma {:induction false} RunKeepsKey(s: State, trace: seq<Event>, s': State)
    requires Run(s, trace, s') && !s.round.ceremony.Registering?
    ensures s'.round.commitments == s.round.commitments && s'.round.eaPk == s.round.eaPk
    ensures forall v :: v in s'.round.validators ==> v in s.round.validators
    decreases |trace|
  {
    hide Next, ProofsHold;
    if trace != [] {
      StepKeepsKey(s, trace[0]);
      RunKeepsKey(Next(s, trace[0]), trace[1..], s');
    }
  }

  /** In every later state of the round, for every validator still in it, a share that answered to the
      dealt key answers to the verification key of the index the chain finds for that validator. */
  lemma {:induction false} ShareServesForever(s: State, trace: seq<Event>, s': State, a: Address, share: Scalar)
    requires Run(s, trace, s') && s.round.ceremony.Dealt? && DistinctAddresses(s.round.validators)
    requires FindValidator(s.round.validators, a).Some? && FindValidator(s'.round.validators, a).Some?
    requires ShareMatches(Generator, s.round.commitments, FindValidator(s.round.validators, a).value.shamirIndex, share)
    ensures var index := FindValidator(s'.round.validators, a).value.shamirIndex;
      ShareMatches(Generator, s'.round.commitments, index, share)
  {
    hide Run, ShareMatches;
    RunKeepsKey(s, trace, s');
    var vs := s.round.validators;
    FindValidatorFinds(vs, a);
    FindValidatorFinds(s'.round.validators, a);
    var v, w := FindValidator(vs, a).value, FindValidator(s'.round.validators, a).value;
    var i :| 0 <= i < |vs| && vs[i] == v;
    var j :| 0 <= j < |vs| && vs[j] == w;
  }

  // ----- the wiped key

  /** A single validator that deals a non-zero secret to itself and acknowledges: the bytes it stores are
      right, the key object it gets back is zero. */
  method SoleValidatorGetsZeroKey(u: Suite, sk: Scalar, secret: Scalar, e: Scalar) returns (bytes: Bytes, key: Scalar)
    requires Lawful(u) && sk != 0 && secret != 0 && e != 0
    ensures bytes == u.encScalar(secret) && key == 0
  {
    hide AckShare, SumReceived, Lawful, Decodable;
    SoleRound(u, sk, Dealer("val", [secret], [e]), Validator("val", PMul(Generator, sk), 1));
    var c := WireContribution("val", EncodePoints(u, Commit(Generator, [secret])), []);
    var r := DealtRound(1, EncodePoints(u, Commit(Generator, [secret])), [c]);
    var ack := AckDKGRound(u, sk, r, "val", 1, Some(WriteCoeffs(u, [secret])));
    bytes, key := ack.value.0, ack.value.1.v;
  }

  lemma {:induction false} SoleRound(u: Suite, sk: Scalar, d: Dealer, v: Validator)
    requires Lawful(u) && sk != 0 && |d.coeffs| == 1 && |d.ephemerals| == 1 && d.coeffs[0] != 0 && d.ephemerals[0] != 0
    requires v == Validator(d.address, PMul(Generator, sk), 1)
    ensures var raw := EncodePoints(u, Commit(Generator, d.coeffs));
      var r := DealtRound(1, raw, [WireContribution(d.address, raw, [])]);
      && OnlyOwn(r.contributions, d.address)
      && AckShare(u, sk, r, d.address, 1, WriteCoeffs(u, d.coeffs)) == Ok(d.coeffs[0])
  {
    var vs, ds := [v], [d];
    assert vs == Reindex(vs);
    assert Payloads(u, vs, d, 1) == Ok([]) by { assert Payloads(u, vs, d, 0) == Ok([]); }
    EveryAckSucceeds(u, vs, [sk], ds, 1, 0, 0);
    SoleCombined(d);
    JointIsSum(ds, 1, 1);
    assert ds[..0] == [];
    EvalSingleton(d.coeffs, 1);
    assert AllContributions(u, vs, ds, 1) == [ContributionOf(u, vs, d)];
  }

  lemma {:induction false} SoleCombined(d: Dealer)
    requires |d.coeffs| == 1
    ensures SameLength(CommitmentsOf([d]), 1) && CombinedVector(CommitmentsOf([d]), 1) == Commit(Generator, d.coeffs)
  {
    var vs := CommitmentsOf([d]);
    assert vs == [Commit(Generator, d.coeffs)] && vs[..0] == [];
    GeneratorMul(d.coeffs[0]);
    ReduceScalar(d.coeffs[0]);
    assert ColumnSum(vs, 1, 0) == ColumnSum([], 1, 0) + d.coeffs[0];
  }

  lemma {:induction false} EvalSingleton(c: seq<Scalar>, x: int)
    requires |c| == 1
    ensures Reduce(Eval(c, x)) == c[0]
  {
    EvalSingle(c, x);
    assert c[0..] == c;
    ReduceScalar(c[0]);
  }
}
