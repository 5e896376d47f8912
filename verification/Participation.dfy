/** Who took part in a round's key ceremony: what every run keeps about contributors and acknowledgers. */
module Participation {
  import opened Field
  import opened Group
  import opened Feldman
  import opened Round
  import opened Lifecycle
  import opened StepLaws

  /** Contributors are different validators; from the moment the key is dealt, everybody left in the round
      has contributed; a confirmed round consists of validators that acknowledged. */
  ghost predicate Participants(r: VoteRound) {
    && DistinctContributors(r.contributions)
    && (r.ceremony.Registering? ==> forall i :: 0 <= i < |r.contributions| ==>
      HasAddress(r.validators, r.contributions[i].from))
    && (!r.ceremony.Registering? ==> AllContributed(r.validators, r.contributions))
    && (r.ceremony.Confirmed? ==> forall i :: 0 <= i < |r.validators| ==> r.validators[i].address in r.acks)
  }

  ghost predicate AllContributed(vs: seq<Validator>, cs: seq<Contribution>) {
    forall i :: 0 <= i < |vs| ==> HasContributed(cs, vs[i].address)
  }

  ghost function Contributors(cs: seq<Contribution>): set<Address> {
    set i | 0 <= i < |cs| :: cs[i].from
  }

  lemma {:induction false} ContributorCount(cs: seq<Contribution>)
    requires DistinctContributors(cs)
    ensures |Contributors(cs)| == |cs|
  {
    if cs != [] {
      var n := |cs| - 1;
      ContributorCount(cs[..n]);
      assert forall i :: 0 <= i < n ==> cs[..n][i] == cs[i];
      assert Contributors(cs) == Contributors(cs[..n]) + {cs[n].from};
    }
  }

  /** n different contributors among n validators are all of them. */
  lemma FullSet(vs: seq<Validator>, cs: seq<Contribution>)
    requires DistinctAddresses(vs) && DistinctContributors(cs) && |cs| == |vs|
    requires forall i :: 0 <= i < |cs| ==> HasAddress(vs, cs[i].from)
    ensures AllContributed(vs, cs)
  {
    ContributorCount(cs);
    AddressesCount(vs);
    forall a | a in Contributors(cs) ensures a in AddressSet(vs) {
      var i :| 0 <= i < |cs| && cs[i].from == a;
      var j :| 0 <= j < |vs| && vs[j].address == cs[i].from;
    }
    SameSizeSubset(Contributors(cs), AddressSet(vs));
    forall i | 0 <= i < |vs| ensures HasContributed(cs, vs[i].address) {
      assert vs[i].address in AddressSet(vs);
      var j :| 0 <= j < |cs| && cs[j].from == vs[i].address;
    }
  }

  lemma ContributeKeepsParticipants(r: VoteRound, creator: Address, commitments: seq<Point>, payloads: seq<Payload>,
                                    ok: bool)
    requires CeremonyInv(r) && Participants(r)
    ensures var x := ContributeDKG(r, creator, commitments, payloads, ok);
      x.Ok? ==> Participants(x.value)
  {
    hide ContributeDKG, CommitmentVectors, KeyUsable, Recipients, CommitmentAt, SumAt, AllContributed;
    ContributeExact(r, creator, commitments, payloads, ok);
    var x := ContributeDKG(r, creator, commitments, payloads, ok);
    if x.Ok? && |r.contributions| + 1 == |r.validators| {
      FullSet(r.validators, x.value.contributions);
    }
  }

  lemma AllAcknowledged(r: VoteRound, acks: seq<Address>)
    requires DistinctAddresses(r.validators) && |acks| == |r.validators|
    requires forall i, j :: 0 <= i < j < |acks| ==> acks[i] != acks[j]
    requires forall i :: 0 <= i < |acks| ==> HasAddress(r.validators, acks[i])
    ensures forall i :: 0 <= i < |r.validators| ==> r.validators[i].address in acks
  {
    DistinctSize(acks);
    AddressesCount(r.validators);
    forall a | a in ToSet(acks) ensures a in AddressSet(r.validators) {
      var i :| 0 <= i < |acks| && acks[i] == a;
      var j :| 0 <= j < |r.validators| && r.validators[j].address == acks[i];
    }
    SameSizeSubset(ToSet(acks), AddressSet(r.validators));
    forall i | 0 <= i < |r.validators| ensures r.validators[i].address in acks {
      assert r.validators[i].address in AddressSet(r.validators);
    }
  }

  lemma AckKeepsParticipants(r: VoteRound, creator: Address, ok: bool)
    requires CeremonyInv(r) && Participants(r)
    ensures var x := AckKey(r, creator, ok);
      x.Ok? ==> Participants(x.value)
  {
    hide AckKey, FindValidator;
    AckExact(r, creator, ok);
    if AckKey(r, creator, ok).Ok? && |r.acks| + 1 == |r.validators| {
      var acks := r.acks + [creator];
      forall i | 0 <= i < |acks| ensures HasAddress(r.validators, acks[i]) {
        if i < |r.acks| {
          FindValidatorFinds(r.validators, r.acks[i]);
        }
      }
      AllAcknowledged(r, acks);
    }
  }

  lemma StripKeepsParticipants(r: VoteRound)
    requires Participants(r) && !r.ceremony.Registering?
    ensures Participants(StripNonAckers(r).(ceremony := Confirmed, status := Active))
  {
    KeptValidators(r.validators, r.acks);
    KeptContributions(r.contributions, r.acks);
    var vs, cs := KeepAckedValidators(r.validators, r.acks), KeepAckedContributions(r.contributions, r.acks);
    forall i | 0 <= i < |vs| ensures vs[i].address in r.acks && HasContributed(cs, vs[i].address) {
      assert vs[i] in vs;
      var l :| 0 <= l < |r.validators| && r.validators[l] == vs[i];
      assert HasContributed(r.contributions, r.validators[l].address);
      var j :| 0 <= j < |r.contributions| && r.contributions[j].from == vs[i].address;
      assert r.contributions[j] in cs;
      var m :| 0 <= m < |cs| && cs[m] == r.contributions[j];
    }
  }

  lemma NextKeepsParticipants(s: State, e: Event)
    requires CeremonyInv(s.round) && Participants(s.round)
    ensures Participants(Next(s, e).round)
  {
    hide ContributeDKG, AckKey, StripNonAckers, InBounds, FindValidator, EntryMap, ResultMap, AddToTally;
    match e
    case Contribute(creator, commitments, payloads, ok) =>
      ContributeKeepsParticipants(s.round, creator, commitments, payloads, ok);
    case Ack(creator, ok) => AckKeepsParticipants(s.round, creator, ok);
    case DealtTimeout =>
      if s.round.ceremony.Dealt? { StripKeepsParticipants(s.round); }
    case _ =>
  }

  lemma {:induction false} RunKeepsParticipants(s: State, trace: seq<Event>, s': State)
    requires Inv(s) && Participants(s.round) && Run(s, trace, s')
    ensures Participants(s'.round)
    decreases |trace|
  {
    hide Next, Participants, ProofsHold, CeremonyInv;
    if trace != [] {
      NextKeepsParticipants(s, trace[0]);
      NextKeepsInv(s, trace[0]);
      RunKeepsParticipants(Next(s, trace[0]), trace[1..], s');
    }
  }

  /** In every run from a new session no validator contributes twice; from the moment the key is dealt,
      everybody left in the round has contributed; and everybody left once it is confirmed has acknowledged. */
  lemma CeremonyParticipants(s: State, trace: seq<Event>, s': State)
    requires Initial(s) && Run(s, trace, s')
    ensures forall i, j :: 0 <= i < j < |s'.round.contributions| ==>
      s'.round.contributions[i].from != s'.round.contributions[j].from
    ensures !s'.round.ceremony.Registering? ==> forall i :: 0 <= i < |s'.round.validators| ==>
      HasContributed(s'.round.contributions, s'.round.validators[i].address)
    ensures s'.round.ceremony.Confirmed? ==> forall i :: 0 <= i < |s'.round.validators| ==>
      s'.round.validators[i].address in s'.round.acks
  {
    hide Run, Inv;
    InitialInv(s);
    RunKeepsParticipants(s, trace, s');
  }

  /** A validator that has contributed cannot contribute again, nor acknowledge twice. */
  lemma NobodyTwice(r: VoteRound, a: Address, commitments: seq<Point>, payloads: seq<Payload>, ok: bool)
    ensures HasContributed(r.contributions, a) ==> ContributeDKG(r, a, commitments, payloads, ok).Err?
    ensures a in r.acks ==> AckKey(r, a, ok).Err?
  {
  }
}
