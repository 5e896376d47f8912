/** Exactly when each message and timeout takes effect on a round, and what it then changes, in terms of
    the round's own data. A message that is not accepted changes nothing. */
module StepLaws {
  import opened Field
  import opened Polynomial
  import opened Group
  import opened Shamir
  import opened Feldman
  import opened ElGamal
  import opened Round
  import opened Lifecycle

  // ----- thresholds

  /** The decryption threshold is the least number that is at least two thirds; there is none for an
      empty validator set. */
  lemma ThresholdIsTwoThirds(n: nat, a: nat)
    ensures ThresholdForN(n).Err? <==> n == 0
    ensures n > 0 ==> (a >= ThresholdForN(n).value <==> 3 * a >= 2 * n)
  {
  }

  /** The acknowledgment quorum is the least number that is at least four fifths. */
  lemma QuorumIsFourFifths(n: nat, a: nat)
    ensures a >= RequiredQuorum(n) <==> 5 * a >= 4 * n
  {
  }

  ghost predicate HasAddress(vs: seq<Validator>, a: Address) {
    exists i :: 0 <= i < |vs| && vs[i].address == a
  }

  lemma ReindexKeepsValidators(vs: seq<Validator>, i: nat)
    requires i < |vs|
    ensures Reindex(vs)[i] == Validator(vs[i].address, vs[i].pallasPk, i + 1)
  {
  }

  // ----- votes

  /** A revealed share is counted. */
  ghost predicate RevealCounts(s: State, k: Key, share: Ciphertext, nullifier: string) {
    && s.round.status.Active? && nullifier !in s.nullifiers
    && 1 <= k.proposal <= |s.round.options| && 2 <= s.round.options[k.proposal - 1] <= 8
    && k.decision < s.round.options[k.proposal - 1]
    && share.c1 != Identity && share.c2 != Identity
    && (k in s.accumulators ==>
      PAdd(s.accumulators[k].c1, share.c1) != Identity && PAdd(s.accumulators[k].c2, share.c2) != Identity)
  }

  /** A reveal changes the round if and only if the round is active, the option exists, the nullifier is
      new and neither the share nor the running sum has an identity component. It is then added to its
      option's accumulator, and its nullifier and value are recorded; nothing else changes. */
  lemma RevealExact(s: State, k: Key, share: Ciphertext, nullifier: string, value: nat, randomness: Scalar)
    ensures var s' := Next(s, Reveal(k, share, nullifier, value, randomness));
      && (s' != s <==> RevealCounts(s, k, share, nullifier))
      && (s' != s ==>
        var acc := s.accumulators;
        var sum := if k in acc then Ciphertext(PAdd(acc[k].c1, share.c1), PAdd(acc[k].c2, share.c2)) else share;
        s' == s.(accumulators := acc[k := sum], nullifiers := s.nullifiers + {nullifier},
                 cast := s.cast[k := (if k in s.cast then s.cast[k] else []) + [value]]))
  {
    hide PAdd;
    var s' := Next(s, Reveal(k, share, nullifier, value, randomness));
    assert RevealCounts(s, k, share, nullifier) ==> nullifier in s'.nullifiers;
  }

  /** In a round that satisfies the invariant, a counted share makes the accumulator an encryption of the
      old sum plus its value. */
  lemma CountedShareAdds(s: State, k: Key, share: Ciphertext, nullifier: string, value: nat, randomness: Scalar)
    requires Inv(s) && RevealCounts(s, k, share, nullifier) && share == EncryptCore(s.round.eaPk, value, randomness)
    ensures var s' := Next(s, Reveal(k, share, nullifier, value, randomness));
      && k in s'.accumulators
      && Encrypts(s.round.eaPk, (if k in s.cast then Sum(s.cast[k]) else 0) + value, s'.accumulators[k])
  {
    hide Sum, EncryptCore, CorrectPartial;
    RevealExact(s, k, share, nullifier, value, randomness);
    assert Encrypts(s.round.eaPk, value, share);
    if k in s.cast {
      AddedShareEncrypts(s.round.eaPk, Sum(s.cast[k]), s.accumulators[k], value, share);
    }
  }

  // ----- contributions

  ghost function Recipients(ps: seq<Payload>): set<Address> {
    set i | 0 <= i < |ps| :: ps[i].to
  }

  lemma {:induction false} DistinctRecipients(ps: seq<Payload>)
    ensures |Recipients(ps)| <= |ps|
    ensures |Recipients(ps)| == |ps| <==> forall i, j :: 0 <= i < j < |ps| ==> ps[i].to != ps[j].to
  {
    if ps != [] {
      var n := |ps| - 1;
      DistinctRecipients(ps[..n]);
      assert forall i :: 0 <= i < n ==> ps[..n][i] == ps[i];
      assert Recipients(ps) == Recipients(ps[..n]) + {ps[n].to};
      if ps[n].to in Recipients(ps[..n]) {
        var i :| 0 <= i < n && ps[..n][i].to == ps[n].to;
        assert ps[i].to == ps[n].to;
      }
    }
  }

  lemma {:induction false} AddressesCount(vs: seq<Validator>)
    requires DistinctAddresses(vs)
    ensures |AddressSet(vs)| == |vs|
  {
    if vs != [] {
      var n := |vs| - 1;
      AddressesCount(vs[..n]);
      assert forall i :: 0 <= i < n ==> vs[..n][i] == vs[i];
      assert AddressSet(vs) == AddressSet(vs[..n]) + {vs[n].address};
    }
  }

  lemma SameSizeSubset(a: set<Address>, b: set<Address>)
    requires a <= b && |a| >= |b|
    ensures a == b
  {
    assert b == a + (b - a);
  }

  /** The payload check asks for one usable envelope to each other validator. */
  lemma PayloadsCoverExact(r: VoteRound, creator: Address, payloads: seq<Payload>)
    requires DistinctAddresses(r.validators) && HasAddress(r.validators, creator)
    ensures PayloadsCover(r, creator, payloads) <==>
      && |payloads| == |r.validators| - 1 && Recipients(payloads) == AddressSet(r.validators) - {creator}
      && forall i :: 0 <= i < |payloads| ==> payloads[i].ephemeral != Identity
  {
    hide FindValidator;
    var others := AddressSet(r.validators) - {creator};
    AddressesCount(r.validators);
    assert creator in AddressSet(r.validators);
    DistinctRecipients(payloads);
    forall a ensures FindValidator(r.validators, a).Some? <==> a in AddressSet(r.validators) {
      FindValidatorFinds(r.validators, a);
    }
    if PayloadsCover(r, creator, payloads) {
      assert Recipients(payloads) <= others;
      SameSizeSubset(Recipients(payloads), others);
    }
    if Recipients(payloads) == others {
      forall i | 0 <= i < |payloads| ensures payloads[i].to in others {
        assert payloads[i].to in Recipients(payloads);
      }
    }
  }

  ghost predicate MayContribute(r: VoteRound, creator: Address, commitments: seq<Point>, payloads: seq<Payload>,
                                proofAccepted: bool)
  {
    var n, t := |r.validators|, |commitments|;
    && r.status.Pending? && r.ceremony.Registering?
    && HasAddress(r.validators, creator)
    && (forall i :: 0 <= i < |r.contributions| ==> r.contributions[i].from != creator)
    && 3 * t >= 2 * n && 3 * (t - 1) < 2 * n
    && (forall i :: 0 <= i < t ==> commitments[i] != Identity)
    && |payloads| == n - 1 && Recipients(payloads) == AddressSet(r.validators) - {creator}
    && (forall i :: 0 <= i < |payloads| ==> payloads[i].ephemeral != Identity)
    && proofAccepted
  }

  /** The sum of the committed polynomials vanishes neither at zero nor at any validator's index. */
  ghost predicate KeyUsable(vs: seq<seq<Point>>, n: nat) {
    forall x :: 0 <= x <= n ==> Reduce(SumAt(vs, x)) != 0
  }

  lemma CombinedUsable(vs: seq<seq<Point>>, t: nat, n: nat)
    requires SameLength(vs, t) && t > 0
    ensures var c := CombinedVector(vs, t);
      KeyUsable(vs, n) <==> c[0] != Identity && forall i :: 1 <= i <= n ==> CommitmentAt(c, i) != Identity
  {
    hide SumAt, CommitmentAt, CombinedVector;
    var c := CombinedVector(vs, t);
    forall x | 0 <= x <= n ensures Reduce(SumAt(vs, x)) == 0 <==> CommitmentAt(c, x) == Identity {
      CombinedAt(vs, t, x);
    }
    AtZero(c);
    assert Reduce(SumAt(vs, 0)) == 0 <==> CommitmentAt(c, 0) == Identity;
  }

  lemma AtZero(c: seq<Point>)
    requires c != []
    ensures CommitmentAt(c, 0) == c[0]
  {
    KeyIsConstantTerm(c);
  }

  lemma LeastTwoThirds(n: nat, t: nat)
    requires n > 0
    ensures t == ThresholdForN(n).value <==> 3 * t >= 2 * n && 3 * (t - 1) < 2 * n
  {
  }

  lemma GuardsExact(r: VoteRound, creator: Address, commitments: seq<Point>, payloads: seq<Payload>, ok: bool)
    requires CeremonyInv(r)
    ensures MayContribute(r, creator, commitments, payloads, ok) <==>
      && r.status.Pending? && r.ceremony.Registering? && |r.validators| > 0
      && FindValidator(r.validators, creator).Some? && !HasContributed(r.contributions, creator)
      && |commitments| == ThresholdForN(|r.validators|).value && Identity !in commitments
      && PayloadsCover(r, creator, payloads) && ok
  {
    hide FindValidator, PayloadsCover, Recipients, ThresholdForN;
    FindValidatorFinds(r.validators, creator);
    if HasAddress(r.validators, creator) {
      PayloadsCoverExact(r, creator, payloads);
      LeastTwoThirds(|r.validators|, |commitments|);
    }
  }

  /** A contribution is accepted if and only if its sender is a validator that has not contributed, with
      the right number of usable commitments, one envelope to each other validator and a valid proof, and,
      when it is the last one, the joint key is usable. The last one fixes the key. */
  lemma ContributeExact(r: VoteRound, creator: Address, commitments: seq<Point>, payloads: seq<Payload>, ok: bool)
    requires CeremonyInv(r)
    ensures var x := ContributeDKG(r, creator, commitments, payloads, ok);
      var all := r.contributions + [Contribution(creator, commitments, payloads)];
      var vs := CommitmentVectors(all);
      var last := |all| == |r.validators|;
      && (x.Ok? <==> MayContribute(r, creator, commitments, payloads, ok) && (last ==> KeyUsable(vs, |r.validators|)))
      && (x.Ok? && !last ==> x.value == r.(contributions := all))
      && (x.Ok? && last ==>
        && x.value == r.(contributions := all, commitments := x.value.commitments, eaPk := x.value.eaPk,
                         threshold := |commitments|, ceremony := Dealt)
        && |x.value.commitments| == |commitments| && x.value.eaPk == x.value.commitments[0]
        && forall p :: CommitmentAt(x.value.commitments, p) == Point(Reduce(SumAt(vs, p))))
  {
    hide FindValidator, PayloadsCover, HasContributed, MayContribute, KeyUsable, CommitmentAt, SumAt, CombinedVector;
    GuardsExact(r, creator, commitments, payloads, ok);
    if MayContribute(r, creator, commitments, payloads, ok) {
      var t := |commitments|;
      QuorumCoversThreshold(|r.validators|);
      var all := r.contributions + [Contribution(creator, commitments, payloads)];
      var vs := CommitmentVectors(all);
      assert vs == CommitmentVectors(r.contributions) + [commitments];
      assert SameLength(vs, t) && vs[0] != [] && |vs[0]| == t;
      CombinedUsable(vs, t, |r.validators|);
      forall p ensures CommitmentAt(CombinedVector(vs, t), p) == Point(Reduce(SumAt(vs, p))) {
        CombinedAt(vs, t, p);
      }
    }
  }

  // ----- acknowledgments

  /** An acknowledgment is accepted if and only if the key is dealt, its sender is a validator that has
      not acknowledged, and its digest matches; the one that completes the set activates the round. */
  lemma AckExact(r: VoteRound, creator: Address, digestMatches: bool)
    ensures var x := AckKey(r, creator, digestMatches);
      && (x.Ok? <==> r.status.Pending? && r.ceremony.Dealt? && HasAddress(r.validators, creator)
                     && creator !in r.acks && digestMatches)
      && (x.Ok? ==>
        var all := |r.acks| + 1 == |r.validators|;
        x.value == r.(acks := r.acks + [creator], ceremony := if all then Confirmed else Dealt,
                      status := if all then Active else Pending))
  {
    FindValidatorFinds(r.validators, creator);
  }

  lemma {:induction false} KeepAppend(a: seq<Validator>, b: seq<Validator>, acks: seq<Address>)
    ensures KeepAckedValidators(a + b, acks) == KeepAckedValidators(a, acks) + KeepAckedValidators(b, acks)
    ensures forall v :: KeepAckedValidators([v], acks) == if v.address in acks then [v] else []
  {
    if a == [] {
      assert a + b == b;
    } else {
      assert (a + b)[1..] == a[1..] + b;
      KeepAppend(a[1..], b, acks);
    }
  }

  lemma {:induction false} KeepContributionsAppend(a: seq<Contribution>, b: seq<Contribution>, acks: seq<Address>)
    ensures KeepAckedContributions(a + b, acks) == KeepAckedContributions(a, acks) + KeepAckedContributions(b, acks)
    ensures forall c :: KeepAckedContributions([c], acks) == if c.from in acks then [c] else []
  {
    if a == [] {
      assert a + b == b;
    } else {
      assert (a + b)[1..] == a[1..] + b;
      KeepContributionsAppend(a[1..], b, acks);
    }
  }

  ghost predicate DistinctContributors(cs: seq<Contribution>) {
    forall i, j :: 0 <= i < j < |cs| ==> cs[i].from != cs[j].from
  }

  lemma {:induction false} KeptContributions(cs: seq<Contribution>, acks: seq<Address>)
    ensures forall c :: c in KeepAckedContributions(cs, acks) <==> c in cs && c.from in acks
    ensures DistinctContributors(cs) ==> DistinctContributors(KeepAckedContributions(cs, acks))
  {
    if cs != [] {
      var ks := KeepAckedContributions(cs[1..], acks);
      KeptContributions(cs[1..], acks);
      if DistinctContributors(cs) {
        forall j | 0 <= j < |ks| ensures ks[j].from != cs[0].from {
          assert ks[j] in ks;
          var i :| 0 <= i < |cs[1..]| && cs[1..][i] == ks[j];
          assert cs[i + 1] == ks[j];
        }
      }
    }
  }

  // ----- timeouts

  /** What each timeout does and when: the registration deadline fails a round that is still registering;
      the acknowledgment deadline activates a dealt round that four fifths acknowledged, with only those
      that did, and fails it otherwise; the end of voting starts the tally; the tally deadline ends it. */
  lemma TimeoutsExact(s: State)
    ensures var r := s.round;
      && Next(s, RegisteringTimeout) ==
        (if r.status.Pending? && r.ceremony.Registering? then s.(round := r.(status := CeremonyFailed)) else s)
      && Next(s, DealtTimeout) ==
        (if !(r.status.Pending? && r.ceremony.Dealt?) then s
         else if |r.validators| > 0 && 5 * |r.acks| >= 4 * |r.validators| then
           s.(round := r.(status := Active, ceremony := Confirmed,
                          validators := KeepAckedValidators(r.validators, r.acks),
                          contributions := KeepAckedContributions(r.contributions, r.acks)))
         else s.(round := r.(status := CeremonyFailed)))
      && Next(s, VotingEnds) == (if r.status.Active? then s.(round := r.(status := Tallying)) else s)
      && Next(s, TallyTimeout) ==
        (if r.status.Tallying? then s.(round := r.(status := Finalized, timedOut := true)) else s)
  {
    QuorumIsFourFifths(|s.round.validators|, |s.round.acks|);
  }

  /** A finalized or failed round never changes again. */
  lemma {:induction false} TerminalFixed(s: State, trace: seq<Event>, s': State)
    requires s.round.status.Finalized? || s.round.status.CeremonyFailed?
    requires Run(s, trace, s')
    ensures s' == s
    decreases |trace|
  {
    if trace != [] {
      TerminalStep(s, trace[0]);
      TerminalFixed(Next(s, trace[0]), trace[1..], s');
    }
  }

  lemma TerminalStep(s: State, e: Event)
    requires s.round.status.Finalized? || s.round.status.CeremonyFailed?
    ensures Next(s, e) == s
  {
    hide FindValidator, InBounds;
  }

  // ----- partial decryptions

  ghost predicate LastDi(entries: seq<PartialEntry>, k: Key, di: Point) {
    exists i :: 0 <= i < |entries| && entries[i].key == k && entries[i].di == di
      && forall j :: i < j < |entries| ==> entries[j].key != k
  }

  lemma {:induction false} EntryMapLast(entries: seq<PartialEntry>)
    ensures forall k :: k in EntryMap(entries) <==> k in PartialKeys(entries)
    ensures forall k :: k in EntryMap(entries) ==> LastDi(entries, k, EntryMap(entries)[k])
  {
    EntryMapContents(entries);
    if entries != [] {
      var n := |entries| - 1;
      EntryMapLast(entries[..n]);
      forall k | k in EntryMap(entries) ensures LastDi(entries, k, EntryMap(entries)[k]) {
        LastDiStep(entries, k, EntryMap(entries)[k]);
      }
    }
  }

  lemma LastDiStep(entries: seq<PartialEntry>, k: Key, di: Point)
    requires entries != []
    ensures var n := |entries| - 1;
      (if entries[n].key == k then entries[n].di == di else LastDi(entries[..n], k, di)) ==> LastDi(entries, k, di)
  {
    var n := |entries| - 1;
    if entries[n].key != k && LastDi(entries[..n], k, di) {
      var i :| 0 <= i < n && entries[..n][i].key == k && entries[..n][i].di == di
        && forall j :: i < j < n ==> entries[..n][j].key != k;
      assert entries[i].key == k && forall j :: i < j < n ==> entries[j] == entries[..n][j];
    }
  }

  ghost predicate HasIndex(vs: seq<Validator>, a: Address, index: nat) {
    exists i :: 0 <= i < |vs| && vs[i].address == a && vs[i].shamirIndex == index
  }

  ghost predicate MaySubmit(s: State, creator: Address, index: nat, entries: seq<PartialEntry>) {
    && s.round.status.Tallying? && index !in s.partials && entries != []
    && HasIndex(s.round.validators, creator, index)
    && (forall k :: k in s.accumulators ==> exists i :: 0 <= i < |entries| && entries[i].key == k)
    && forall i :: 0 <= i < |entries| ==> entries[i].key in s.accumulators && entries[i].proofAccepted
  }

  /** In a round that satisfies the invariant, a submission is accepted if and only if the round is
      tallying, its index is its sender's and has not answered, and it has an accepted proof for exactly
      the accumulators there are; it is then stored whole, the last value winning, and nothing else changes. */
  lemma PartialsExact(s: State, creator: Address, index: nat, entries: seq<PartialEntry>)
    requires Inv(s)
    ensures var s' := Next(s, SubmitPartials(creator, index, entries));
      && (s' != s <==> MaySubmit(s, creator, index, entries))
      && (s' != s ==>
        && index in s'.partials && s' == s.(partials := s.partials[index := s'.partials[index]])
        && s'.partials[index].Keys == s.accumulators.Keys
        && forall k :: k in s.accumulators ==> LastDi(entries, k, s'.partials[index][k]))
  {
    hide Inv, EntryMap, PartialsAccepted, MaySubmit, LastDi;
    SubmissionGuards(s, creator, index, entries);
    EntryMapLast(entries);
    var s' := Next(s, SubmitPartials(creator, index, entries));
    if PartialsAccepted(s, creator, index, entries) {
      assert index in s'.partials;
      NewAndComplete(s, creator, index, entries);
    }
  }

  lemma NewAndComplete(s: State, creator: Address, index: nat, entries: seq<PartialEntry>)
    requires Inv(s) && PartialsAccepted(s, creator, index, entries)
    ensures index !in s.partials && forall k :: k in PartialKeys(entries) <==> k in s.accumulators
  {
    hide Encrypts, CorrectPartial, FindValidator;
    forall k | k in PartialKeys(entries) ensures k in s.accumulators {
      var i :| 0 <= i < |entries| && entries[i].key == k;
    }
  }

  lemma SubmissionGuards(s: State, creator: Address, index: nat, entries: seq<PartialEntry>)
    requires Inv(s)
    ensures PartialsAccepted(s, creator, index, entries) <==> MaySubmit(s, creator, index, entries)
  {
    hide Encrypts, CorrectPartial, FindValidator;
    SenderIndex(s.round.validators, creator, index);
    assert s.round.status.Tallying? ==> s.round.commitments != [];
    if MaySubmit(s, creator, index, entries) {
      forall k | k in s.accumulators ensures k in PartialKeys(entries) {
        var i :| 0 <= i < |entries| && entries[i].key == k;
      }
    }
    if PartialsAccepted(s, creator, index, entries) {
      forall k | k in s.accumulators ensures exists i :: 0 <= i < |entries| && entries[i].key == k {
        assert k in PartialKeys(entries);
      }
    }
  }

  lemma SenderIndex(vs: seq<Validator>, a: Address, index: nat)
    requires DistinctAddresses(vs)
    ensures (FindValidator(vs, a).Some? && FindValidator(vs, a).value.shamirIndex == index) <==> HasIndex(vs, a, index)
  {
    hide FindValidator;
    FindValidatorFinds(vs, a);
    if FindValidator(vs, a).Some? {
      var i :| 0 <= i < |vs| && vs[i] == FindValidator(vs, a).value;
    }
  }

  // ----- tallies

  ghost predicate ListsIndex(ps: seq<PartialDecryption>, i: nat) {
    exists j :: 0 <= j < |ps| && ps[j].index == i
  }

  lemma ListsAppended(ps: seq<PartialDecryption>, p: PartialDecryption, i: nat)
    ensures ListsIndex(ps + [p], i) <==> ListsIndex(ps, i) || p.index == i
  {
    var qs := ps + [p];
    assert qs[|ps|] == p && forall j :: 0 <= j < |ps| ==> qs[j] == ps[j];
    if ListsIndex(ps, i) {
      var j :| 0 <= j < |ps| && ps[j].index == i;
      assert qs[j].index == i;
    }
  }

  /** The partials listed for an accumulator are exactly the stored ones. */
  lemma {:induction false} StoredPartialsListed(partials: map<nat, map<Key, Point>>, k: Key, n: nat, i: nat)
    ensures ListsIndex(PartialsBelow(partials, k, n), i) <==> i < n && i in partials && k in partials[i]
  {
    if n > 0 {
      StoredPartialsListed(partials, k, n - 1, i);
      if n - 1 in partials && k in partials[n - 1] {
        ListsAppended(PartialsBelow(partials, k, n - 1), PartialDecryption(n - 1, partials[n - 1][k]), i);
      }
    }
  }

  ghost function VoteSum(s: State, k: Key): nat {
    if k in s.cast then Sum(s.cast[k]) else 0
  }

  /** In a round that satisfies the invariant, an entry is accepted if and only if its option exists, its
      total is below the bound and congruent to the sum of the votes cast, and, if there were any, a
      threshold of validators has answered. */
  lemma EntryExact(s: State, e: TallyEntry)
    requires Inv(s) && s.round.status.Tallying?
    ensures EntryAccepted(s, e) <==>
      && 1 <= e.key.proposal <= |s.round.options| && 2 <= s.round.options[e.key.proposal - 1] <= 8
      && e.key.decision < s.round.options[e.key.proposal - 1]
      && e.total < TALLY_BOUND && Cong(e.total, VoteSum(s, e.key))
      && (e.key in s.cast ==> |PartialsFor(s, e.key)| >= s.round.threshold)
      && (e.key !in s.cast ==> e.total == 0)
  {
    hide PartialsFor, Combined, CorrectPartial;
    if e.key in s.accumulators {
      EntryForVotes(s, e);
    } else {
      CongRefl(0);
    }
  }

  lemma EntryForVotes(s: State, e: TallyEntry)
    requires Inv(s) && s.round.status.Tallying? && e.key in s.accumulators
    ensures var ps := PartialsFor(s, e.key);
      (Combinable(ps, s.round.threshold) && PSub(s.accumulators[e.key].c2, Combined(ps)) == ValuePoint(e.total))
      <==> |ps| >= s.round.threshold && Cong(e.total, Sum(s.cast[e.key]))
  {
    hide PartialsFor, Combined, CorrectPartial, Encrypts, Cong;
    if |PartialsFor(s, e.key)| >= s.round.threshold {
      CombinedOpens(s, e.key);
      ValuePointLog(e.total);
      ValuePointLog(Sum(s.cast[e.key]));
      CongIffReduce(e.total, Sum(s.cast[e.key]));
    }
  }

  ghost predicate LastTotal(entries: seq<TallyEntry>, k: Key, total: nat) {
    exists i :: 0 <= i < |entries| && entries[i].key == k && entries[i].total == total
      && forall j :: i < j < |entries| ==> entries[j].key != k
  }

  lemma {:induction false} ResultMapLast(entries: seq<TallyEntry>)
    ensures forall k :: k in ResultMap(map[], entries) <==> k in TallyKeys(entries)
    ensures forall k :: k in ResultMap(map[], entries) ==> LastTotal(entries, k, ResultMap(map[], entries)[k])
  {
    if entries != [] {
      var n := |entries| - 1;
      ResultMapLast(entries[..n]);
      assert TallyKeys(entries) == TallyKeys(entries[..n]) + {entries[n].key};
      hide LastTotal;
      var m := ResultMap(map[], entries);
      forall k | k in m ensures LastTotal(entries, k, m[k]) {
        LastTotalStep(entries, k, m[k]);
      }
    }
  }

  lemma LastTotalStep(entries: seq<TallyEntry>, k: Key, total: nat)
    requires entries != []
    ensures var n := |entries| - 1;
      (if entries[n].key == k then entries[n].total == total else LastTotal(entries[..n], k, total)) ==>
        LastTotal(entries, k, total)
  {
    var n := |entries| - 1;
    if entries[n].key != k && LastTotal(entries[..n], k, total) {
      var i :| 0 <= i < n && entries[..n][i].key == k && entries[..n][i].total == total
        && forall j :: i < j < n ==> entries[..n][j].key != k;
      assert entries[i].key == k && forall j :: i < j < n ==> entries[j] == entries[..n][j];
    }
  }

  /** A tally is accepted if and only if the round is tallying, every entry passes its check and every
      option voted for has one; the round is then final with the entries' totals, and nothing else changes. */
  lemma TallyExact(s: State, entries: seq<TallyEntry>)
    requires Inv(s)
    ensures var s' := Next(s, SubmitTally(entries));
      && (s' != s <==> s.round.status.Tallying? && (forall i :: 0 <= i < |entries| ==> EntryAccepted(s, entries[i]))
                       && forall k :: k in s.cast ==> k in TallyKeys(entries))
      && (s' != s ==>
        && s' == s.(results := s'.results, round := s.round.(status := Finalized))
        && (forall k :: k in s'.results <==> k in TallyKeys(entries))
        && forall k :: k in s'.results ==> LastTotal(entries, k, s'.results[k]))
  {
    hide EntryAccepted, Encrypts, CorrectPartial, ResultMap;
    ResultMapLast(entries);
    assert s.round.status.Tallying? ==> s.results == map[];
    var s' := Next(s, SubmitTally(entries));
    assert TallyAccepted(s, entries) ==> s'.round.status.Finalized?;
  }
}
