/** What every transition of a round keeps, and what that means for the published totals. */
module Lifecycle {
  import opened Field
  import opened Polynomial
  import opened Lagrange
  import opened Group
  import opened Shamir
  import opened Feldman
  import opened ElGamal
  import opened Round

  function Sum(vs: seq<nat>): nat {
    if vs == [] then 0 else Sum(vs[..|vs| - 1]) + vs[|vs| - 1]
  }

  lemma SumAppend(vs: seq<nat>, v: nat)
    ensures Sum(vs + [v]) == Sum(vs) + v
  {
    assert (vs + [v])[..|vs|] == vs;
  }

  ghost predicate DistinctAddresses(vs: seq<Validator>) {
    forall i, j :: 0 <= i < j < |vs| ==> vs[i].address != vs[j].address
  }

  ghost predicate IndicesInRange(vs: seq<Validator>) {
    forall i :: 0 <= i < |vs| ==> 0 < vs[i].shamirIndex < INDEX_LIMIT && vs[i].shamirIndex < Q
  }

  ghost predicate DistinctIndices(vs: seq<Validator>) {
    forall i, j :: 0 <= i < j < |vs| ==> vs[i].shamirIndex != vs[j].shamirIndex
  }

  /** A new session: every validator gets its position plus one as Shamir index. */
  ghost predicate Initial(s: State) {
    var r := s.round;
    && r.status.Pending? && r.ceremony.Registering? && !r.timedOut
    && r.contributions == [] && r.acks == [] && r.commitments == []
    && 1 <= |r.validators| < INDEX_LIMIT && |r.validators| < Q
    && DistinctAddresses(r.validators) && r.validators == Reindex(r.validators)
    && s.accumulators == map[] && s.partials == map[] && s.results == map[] && s.cast == map[]
  }

  // ----- the invariant

  ghost predicate CeremonyInv(r: VoteRound) {
    && DistinctAddresses(r.validators) && IndicesInRange(r.validators)
    && (r.ceremony.Registering? ==>
      && !r.status.Active? && !r.status.Tallying? && !r.status.Finalized?
      && r.acks == [] && r.validators != [] && r.validators == Reindex(r.validators)
      && SameLength(CommitmentVectors(r.contributions), ThresholdForN(|r.validators|).value))
    && (!r.ceremony.Registering? ==>
      && |r.commitments| == r.threshold >= 1 && r.eaPk == r.commitments[0])
    && (r.ceremony.Dealt? ==>
      && !r.status.Active? && !r.status.Tallying? && !r.status.Finalized?
      && r.validators != [] && r.threshold == ThresholdForN(|r.validators|).value
      && r.validators == Reindex(r.validators) && AcksValid(r))
    && (r.ceremony.Confirmed? ==> |r.validators| >= r.threshold && DistinctIndices(r.validators))
  }

  ghost predicate AcksValid(r: VoteRound) {
    && (forall i, j :: 0 <= i < j < |r.acks| ==> r.acks[i] != r.acks[j])
    && forall i :: 0 <= i < |r.acks| ==> FindValidator(r.validators, r.acks[i]).Some?
  }

  /** ct is an encryption of v under pk with some randomness. */
  ghost predicate Encrypts(pk: Point, v: int, ct: Ciphertext) {
    exists r: Scalar :: ct == EncryptCore(pk, v, r)
  }

  ghost predicate AccumulatorInv(s: State) {
    && s.accumulators.Keys == s.cast.Keys
    && (forall k :: k in s.accumulators ==>
      InBounds(s.round.options, k) && Encrypts(s.round.eaPk, Sum(s.cast[k]), s.accumulators[k]))
    && (s.round.status.Pending? ==> s.accumulators == map[])
  }

  /** di is the share behind the index's verification key, times the accumulator's C1. */
  ghost predicate CorrectPartial(commitments: seq<Point>, c1: Point, index: nat, di: Point) {
    di == PMul(c1, Reduce(Eval(Logs(commitments), index)))
  }

  ghost predicate PartialInv(s: State) {
    && (!s.round.status.Tallying? && !s.round.status.Finalized? ==> s.partials == map[])
    && forall i :: i in s.partials ==>
      && 0 < i < INDEX_LIMIT && i < Q && s.partials[i].Keys == s.accumulators.Keys
      && forall k :: k in s.partials[i] ==>
        CorrectPartial(s.round.commitments, s.accumulators[k].c1, i, s.partials[i][k])
  }

  /** The published value of every accumulator is the sum of the votes behind it. */
  ghost predicate TotalsCorrect(s: State) {
    && s.cast.Keys <= s.results.Keys
    && forall k :: k in s.results ==> EntryCorrect(s.cast, k, s.results[k])
  }

  ghost predicate Inv(s: State) {
    && CeremonyInv(s.round) && AccumulatorInv(s) && PartialInv(s)
    && (!s.round.status.Finalized? ==> s.results == map[])
    && (s.round.status.Finalized? && !s.round.timedOut ==> TotalsCorrect(s))
  }

  /** What the proof systems guarantee about an event: a revealed share encrypts its value under the
      round's key, and an accepted partial-decryption proof holds of its statement. */
  ghost predicate ProofsHold(s: State, e: Event) {
    match e
    case Reveal(_, share, _, value, randomness) => share == EncryptCore(s.round.eaPk, value, randomness)
    case SubmitPartials(_, index, entries) =>
      forall i :: 0 <= i < |entries| && entries[i].proofAccepted && entries[i].key in s.accumulators ==>
        CorrectPartial(s.round.commitments, s.accumulators[entries[i].key].c1, index, entries[i].di)
    case _ => true
  }

  ghost predicate Run(s: State, trace: seq<Event>, s': State)
    decreases |trace|
  {
    if trace == [] then s == s'
    else ProofsHold(s, trace[0]) && Run(Next(s, trace[0]), trace[1..], s')
  }

  // ----- the ceremony keeps its invariant

  lemma ContributeKeeps(r: VoteRound, creator: Address, commitments: seq<Point>, payloads: seq<Payload>, ok: bool)
    requires CeremonyInv(r)
    ensures var x := ContributeDKG(r, creator, commitments, payloads, ok);
            x.Ok? ==> CeremonyInv(x.value) && x.value.status == r.status && x.value.options == r.options
                      && x.value.timedOut == r.timedOut && r.status.Pending?
  {
    var x := ContributeDKG(r, creator, commitments, payloads, ok);
    if x.Ok? {
      QuorumCoversThreshold(|r.validators|);
      var c := Contribution(creator, commitments, payloads);
      var r' := r.(contributions := r.contributions + [c]);
      var t := ThresholdForN(|r.validators|).value;
      assert CommitmentVectors(r'.contributions) == CommitmentVectors(r.contributions) + [commitments];
      if |r'.contributions| == |r.validators| {
        var vs := CommitmentVectors(r'.contributions);
        assert |vs[0]| == t;
        assert x.value.validators == r.validators;
      }
    }
  }

  lemma AckKeeps(r: VoteRound, creator: Address, ok: bool)
    requires CeremonyInv(r)
    ensures var x := AckKey(r, creator, ok);
            x.Ok? ==> CeremonyInv(x.value) && (x.value.status.Active? || x.value.status == r.status)
                      && x.value.eaPk == r.eaPk && x.value.commitments == r.commitments
                      && x.value.options == r.options && x.value.timedOut == r.timedOut && r.status.Pending?
  {
    if AckKey(r, creator, ok).Ok? {
      QuorumCoversThreshold(|r.validators|);
      ReindexedDistinct(r.validators);
      assert forall i :: 0 <= i < |r.acks| ==> (r.acks + [creator])[i] == r.acks[i];
    }
  }

  lemma {:induction false} KeptValidators(vs: seq<Validator>, acks: seq<Address>)
    ensures forall v :: v in KeepAckedValidators(vs, acks) <==> v in vs && v.address in acks
    ensures DistinctAddresses(vs) ==> DistinctAddresses(KeepAckedValidators(vs, acks))
    ensures DistinctIndices(vs) ==> DistinctIndices(KeepAckedValidators(vs, acks))
  {
    if vs != [] {
      var ks := KeepAckedValidators(vs[1..], acks);
      KeptValidators(vs[1..], acks);
      forall j | 0 <= j < |ks| ensures ks[j] in vs[1..] {
        assert ks[j] in ks;
      }
      if vs[0].address in acks {
        KeptHead(vs, ks);
      }
    }
  }

  lemma KeptHead(vs: seq<Validator>, ks: seq<Validator>)
    requires vs != [] && forall j :: 0 <= j < |ks| ==> ks[j] in vs[1..]
    ensures DistinctAddresses(vs) && DistinctAddresses(ks) ==> DistinctAddresses([vs[0]] + ks)
    ensures DistinctIndices(vs) && DistinctIndices(ks) ==> DistinctIndices([vs[0]] + ks)
  {
    forall j | 0 <= j < |ks|
      ensures DistinctAddresses(vs) ==> ks[j].address != vs[0].address
      ensures DistinctIndices(vs) ==> ks[j].shamirIndex != vs[0].shamirIndex
    {
      var i :| 0 <= i < |vs[1..]| && vs[1..][i] == ks[j];
      assert vs[i + 1] == ks[j];
    }
  }

  lemma ReindexedDistinct(vs: seq<Validator>)
    requires vs == Reindex(vs)
    ensures DistinctIndices(vs) && forall i :: 0 <= i < |vs| ==> vs[i].shamirIndex == i + 1
  {
    forall i | 0 <= i < |vs| ensures vs[i].shamirIndex == i + 1 {
      assert vs[i] == Reindex(vs)[i];
    }
  }

  ghost function IndexSet(vs: seq<Validator>): set<nat> {
    set i | 0 <= i < |vs| :: vs[i].shamirIndex
  }

  lemma {:induction false} IndexSetSize(vs: seq<Validator>)
    requires DistinctIndices(vs)
    ensures |IndexSet(vs)| == |vs|
  {
    if vs != [] {
      var n := |vs| - 1;
      IndexSetSize(vs[..n]);
      assert forall i :: 0 <= i < n ==> vs[..n][i] == vs[i];
      assert IndexSet(vs) == IndexSet(vs[..n]) + {vs[n].shamirIndex};
    }
  }

  /** Once the ceremony is confirmed, the remaining validators have at least a threshold of different
      evaluation points between them, none of them zero modulo q. */
  lemma EnoughEvaluationPoints(r: VoteRound)
    requires CeremonyInv(r) && r.ceremony.Confirmed?
    ensures |IndexSet(r.validators)| == |r.validators| >= r.threshold >= 1
    ensures forall x :: x in IndexSet(r.validators) ==> 0 < x < INDEX_LIMIT && x < Q
  {
    IndexSetSize(r.validators);
  }

  ghost function AddressSet(vs: seq<Validator>): set<Address> {
    set i | 0 <= i < |vs| :: vs[i].address
  }

  lemma {:induction false} AddressSetSize(vs: seq<Validator>)
    ensures |AddressSet(vs)| <= |vs|
  {
    if vs != [] {
      AddressSetSize(vs[1..]);
      assert AddressSet(vs) == {vs[0].address} + AddressSet(vs[1..]) by {
        forall a | a in AddressSet(vs) ensures a in {vs[0].address} + AddressSet(vs[1..]) {
          var i :| 0 <= i < |vs| && vs[i].address == a;
          if i > 0 { assert vs[1..][i - 1].address == a; }
        }
        forall a | a in AddressSet(vs[1..]) ensures a in AddressSet(vs) {
          var i :| 0 <= i < |vs[1..]| && vs[1..][i].address == a;
          assert vs[i + 1].address == a;
        }
      }
    }
  }

  ghost function ToSet(xs: seq<Address>): set<Address> {
    set x | x in xs
  }

  lemma {:induction false} DistinctSize(xs: seq<Address>)
    requires forall i, j :: 0 <= i < j < |xs| ==> xs[i] != xs[j]
    ensures |ToSet(xs)| == |xs|
  {
    if xs != [] {
      DistinctSize(xs[1..]);
      assert ToSet(xs) == {xs[0]} + ToSet(xs[1..]);
    }
  }

  lemma SubsetSize(a: set<Address>, b: set<Address>)
    requires a <= b
    ensures |a| <= |b|
  {
    assert b == a + (b - a);
  }

  /** Stripping keeps everyone who acknowledged. */
  lemma EnoughRemain(r: VoteRound)
    requires AcksValid(r)
    ensures |KeepAckedValidators(r.validators, r.acks)| >= |r.acks|
  {
    var kept := KeepAckedValidators(r.validators, r.acks);
    KeptValidators(r.validators, r.acks);
    forall a | a in ToSet(r.acks) ensures a in AddressSet(kept) {
      var i :| 0 <= i < |r.acks| && r.acks[i] == a;
      FindValidatorFinds(r.validators, a);
      var v := FindValidator(r.validators, a).value;
      assert v in kept;
      var j :| 0 <= j < |kept| && kept[j] == v;
      assert kept[j].address == a;
    }
    DistinctSize(r.acks);
    AddressSetSize(kept);
    SubsetSize(ToSet(r.acks), AddressSet(kept));
  }

  /** As long as the threshold is not reached, some remaining validator's index has not answered. */
  lemma SomeoneStillDue(s: State) returns (v: Validator)
    requires Inv(s) && s.round.status.Tallying? && |s.partials| < s.round.threshold
    ensures v in s.round.validators && v.shamirIndex !in s.partials
    ensures FindValidator(s.round.validators, v.address) == Some(v)
  {
    hide AccumulatorInv, PartialInv, TotalsCorrect, FindValidator;
    EnoughEvaluationPoints(s.round);
    v := UnansweredIndex(s.round.validators, s.partials.Keys);
  }

  lemma UnansweredIndex(vs: seq<Validator>, answered: set<nat>) returns (v: Validator)
    requires DistinctAddresses(vs) && |answered| < |IndexSet(vs)|
    ensures v in vs && v.shamirIndex !in answered && FindValidator(vs, v.address) == Some(v)
  {
    hide FindValidator;
    var x := NotIn(IndexSet(vs), answered);
    var i :| 0 <= i < |vs| && vs[i].shamirIndex == x;
    v := vs[i];
    FindValidatorFinds(vs, v.address);
    var j :| 0 <= j < |vs| && vs[j] == FindValidator(vs, v.address).value;
  }

  lemma NotIn(a: set<nat>, b: set<nat>) returns (x: nat)
    requires |b| < |a|
    ensures x in a && x !in b
  {
    assert a - (a - b) <= b;
    assert a == (a - b) + (a * b) && b == (b - a) + (a * b);
    assert a - b != {};
    x :| x in a - b;
  }

  lemma EndAckPhaseKeeps(r: VoteRound)
    requires CeremonyInv(r) && r.status.Pending? && r.ceremony.Dealt?
    ensures CeremonyInv(EndAckPhase(r))
  {
    var r' := EndAckPhase(r);
    QuorumCoversThreshold(|r.validators|);
    if r'.status.Active? {
      EnoughRemain(r);
      ReindexedDistinct(r.validators);
      KeptValidators(r.validators, r.acks);
      forall i | 0 <= i < |r'.validators|
        ensures 0 < r'.validators[i].shamirIndex < INDEX_LIMIT && r'.validators[i].shamirIndex < Q
      {
        assert r'.validators[i] in r.validators;
      }
    }
  }

  // ----- votes

  lemma AddedShareEncrypts(pk: Point, total: nat, acc: Ciphertext, value: nat, share: Ciphertext)
    requires Encrypts(pk, total, acc) && Encrypts(pk, value, share)
    ensures Encrypts(pk, total + value, HomomorphicAdd(acc, share))
  {
    var r: Scalar :| acc == EncryptCore(pk, total, r);
    var u: Scalar :| share == EncryptCore(pk, value, u);
    AddEncrypts(pk, total, r, value, u);
  }

  lemma AddedToTally(s: State, k: Key, share: Ciphertext, value: nat)
    requires AccumulatorInv(s) && Encrypts(s.round.eaPk, value, share)
    requires AddToTally(s.accumulators, k, share).Ok?
    ensures var acc := AddToTally(s.accumulators, k, share).value;
      && k in acc && acc == s.accumulators[k := acc[k]]
      && Encrypts(s.round.eaPk, Sum((if k in s.cast then s.cast[k] else []) + [value]), acc[k])
  {
    hide Encrypts, HomomorphicAdd, NonIdentity;
    if k in s.accumulators {
      SumAppend(s.cast[k], value);
      AddedShareEncrypts(s.round.eaPk, Sum(s.cast[k]), s.accumulators[k], value, share);
    } else {
      SumAppend([], value);
    }
  }

  lemma RevealKeeps(s: State, k: Key, ct: Ciphertext, values: seq<nat>, ns: set<string>)
    requires AccumulatorInv(s) && s.round.status.Active? && InBounds(s.round.options, k)
    requires Encrypts(s.round.eaPk, Sum(values), ct)
    ensures AccumulatorInv(s.(accumulators := s.accumulators[k := ct], cast := s.cast[k := values], nullifiers := ns))
  {
    hide Encrypts, InBounds;
  }

  // ----- partial decryptions

  lemma {:induction false} EntryMapContents(entries: seq<PartialEntry>)
    ensures EntryMap(entries).Keys == PartialKeys(entries)
    ensures forall k :: k in EntryMap(entries) ==>
      exists i :: 0 <= i < |entries| && entries[i].key == k && entries[i].di == EntryMap(entries)[k]
  {
    if entries != [] {
      var n := |entries| - 1;
      EntryMapContents(entries[..n]);
      assert PartialKeys(entries) == PartialKeys(entries[..n]) + {entries[n].key};
      forall k | k in EntryMap(entries)
        ensures exists i :: 0 <= i < |entries| && entries[i].key == k && entries[i].di == EntryMap(entries)[k]
      {
        if k == entries[n].key {
          assert entries[n].key == k && entries[n].di == EntryMap(entries)[k];
        } else {
          var i :| 0 <= i < n && entries[..n][i].key == k && entries[..n][i].di == EntryMap(entries[..n])[k];
          assert entries[i].key == k && entries[i].di == EntryMap(entries)[k];
        }
      }
    }
  }

  lemma SubmitterIndex(r: VoteRound, creator: Address, index: nat)
    requires IndicesInRange(r.validators)
    requires FindValidator(r.validators, creator).Some?
    requires FindValidator(r.validators, creator).value.shamirIndex == index
    ensures 0 < index < INDEX_LIMIT && index < Q
  {
    FindValidatorFinds(r.validators, creator);
    var v := FindValidator(r.validators, creator).value;
    var j :| 0 <= j < |r.validators| && r.validators[j] == v;
  }

  lemma SubmittedMap(s: State, creator: Address, index: nat, entries: seq<PartialEntry>)
    requires AccumulatorInv(s) && PartialsAccepted(s, creator, index, entries)
    requires ProofsHold(s, SubmitPartials(creator, index, entries))
    ensures EntryMap(entries).Keys == s.accumulators.Keys
    ensures forall k :: k in EntryMap(entries) ==>
      CorrectPartial(s.round.commitments, s.accumulators[k].c1, index, EntryMap(entries)[k])
  {
    hide CorrectPartial, Encrypts;
    var m := EntryMap(entries);
    EntryMapContents(entries);
    forall k | k in m
      ensures k in s.accumulators && CorrectPartial(s.round.commitments, s.accumulators[k].c1, index, m[k])
    {
      var i :| 0 <= i < |entries| && entries[i].key == k && entries[i].di == m[k];
    }
  }

  lemma PartialsKeep(s: State, creator: Address, index: nat, entries: seq<PartialEntry>)
    requires Inv(s) && PartialsAccepted(s, creator, index, entries)
    requires ProofsHold(s, SubmitPartials(creator, index, entries))
    ensures PartialInv(s.(partials := s.partials[index := EntryMap(entries)]))
  {
    hide CorrectPartial, Encrypts, EntryMap;
    SubmitterIndex(s.round, creator, index);
    SubmittedMap(s, creator, index, entries);
  }

  // ----- tally

  /** The listed partials carry increasing indices and are stored ones. */
  ghost predicate SortedStored(ps: seq<PartialDecryption>, partials: map<nat, map<Key, Point>>, k: Key, n: nat) {
    && (forall i :: 0 <= i < |ps| ==>
      0 <= ps[i].index < n && ps[i].index in partials && k in partials[ps[i].index]
      && ps[i].di == partials[ps[i].index][k])
    && forall i, j :: 0 <= i < j < |ps| ==> ps[i].index < ps[j].index
  }

  lemma {:induction false} PartialsBelowSorted(partials: map<nat, map<Key, Point>>, k: Key, n: nat)
    ensures SortedStored(PartialsBelow(partials, k, n), partials, k, n)
  {
    if n > 0 {
      PartialsBelowSorted(partials, k, n - 1);
      var ps, qs := PartialsBelow(partials, k, n - 1), PartialsBelow(partials, k, n);
      assert forall i :: 0 <= i < |ps| ==> qs[i] == ps[i];
    }
  }

  lemma ListedPartials(s: State, k: Key)
    requires Inv(s) && k in s.accumulators
    ensures var ps := PartialsFor(s, k);
      && Positive(Indices(ps)) && Distinct(Indices(ps))
      && OnPolynomial(ps, Logs(s.round.commitments), s.accumulators[k].c1)
  {
    var ps := PartialsFor(s, k);
    PartialsBelowSorted(s.partials, k, IndexLimit());
    forall i | 0 <= i < |ps| ensures 0 < ps[i].index < Q {
      assert ps[i].index in s.partials;
    }
    forall i, j | 0 <= i < j < |ps| ensures !Cong(Indices(ps)[i], Indices(ps)[j]) {
      assert 0 < ps[i].index < Q && 0 < ps[j].index < Q && ps[i].index < ps[j].index;
      if Cong(Indices(ps)[i], Indices(ps)[j]) {
        ScalarUnique(ps[i].index, ps[j].index);
      }
    }
    forall i | 0 <= i < |ps|
      ensures ps[i].di == PMul(s.accumulators[k].c1, Reduce(Eval(Logs(s.round.commitments), ps[i].index)))
    {
      assert CorrectPartial(s.round.commitments, s.accumulators[k].c1, ps[i].index, s.partials[ps[i].index][k]);
    }
  }

  lemma KeyIsConstantTerm(cs: seq<Point>)
    requires cs != []
    ensures Reduce(Eval(Logs(cs), 0)) == cs[0].log
    ensures cs[0] == PMul(Generator, cs[0].log)
  {
    ReduceScalar(cs[0].log);
    GeneratorMul(cs[0].log);
  }

  /** Enough correct partials open an accumulator to the point of its vote sum. */
  lemma CombinedOpens(s: State, k: Key)
    requires Inv(s) && k in s.accumulators && !s.round.ceremony.Registering?
    requires |PartialsFor(s, k)| >= s.round.threshold
    ensures Combinable(PartialsFor(s, k), s.round.threshold)
    ensures PSub(s.accumulators[k].c2, Combined(PartialsFor(s, k))) == ValuePoint(Sum(s.cast[k]))
  {
    var ps, cs, ct := PartialsFor(s, k), s.round.commitments, s.accumulators[k];
    ListedPartials(s, k);
    ThresholdCombination(ps, Logs(cs), ct.c1);
    KeyIsConstantTerm(cs);
    var r: Scalar :| ct == EncryptCore(s.round.eaPk, Sum(s.cast[k]), r);
    DecryptEncrypt(cs[0].log, Sum(s.cast[k]), r);
  }

  ghost predicate EntryCorrect(cast: map<Key, seq<nat>>, k: Key, total: nat) {
    total < TALLY_BOUND && Cong(total, if k in cast then Sum(cast[k]) else 0)
  }

  /** The chain accepts an entry only if its total is the vote sum. */
  lemma AcceptedEntryCorrect(s: State, e: TallyEntry)
    requires Inv(s) && !s.round.ceremony.Registering? && EntryAccepted(s, e)
    ensures EntryCorrect(s.cast, e.key, e.total)
  {
    if e.key in s.accumulators {
      CombinedOpens(s, e.key);
      ValuePointLog(e.total);
      ValuePointLog(Sum(s.cast[e.key]));
      CongIffReduce(e.total, Sum(s.cast[e.key]));
    } else {
      CongRefl(0);
    }
  }

  lemma {:induction false} ResultsCorrect(cast: map<Key, seq<nat>>, entries: seq<TallyEntry>)
    requires forall i :: 0 <= i < |entries| ==> EntryCorrect(cast, entries[i].key, entries[i].total)
    ensures var m := ResultMap(map[], entries);
      m.Keys == TallyKeys(entries) && forall k :: k in m ==> EntryCorrect(cast, k, m[k])
  {
    if entries != [] {
      var n := |entries| - 1;
      ResultsCorrect(cast, entries[..n]);
      assert TallyKeys(entries) == TallyKeys(entries[..n]) + {entries[n].key};
    }
  }

  // ----- every step, every run

  /** A ceremony step moves a pending round only, when nothing has been voted or published yet. */
  lemma CeremonyStep(s: State, r: VoteRound)
    requires Inv(s) && s.round.status.Pending? && CeremonyInv(r)
    requires r.status.Pending? || r.status.Active? || r.status.CeremonyFailed?
    ensures Inv(s.(round := r))
  {
    assert s.accumulators == map[] && s.partials == map[];
  }

  lemma RevealStep(s: State, e: Event)
    requires Inv(s) && ProofsHold(s, e) && e.Reveal?
    ensures Inv(Next(s, e))
  {
    hide Encrypts, CorrectPartial, CeremonyInv, AddToTally, Sum, EncryptCore;
    var s' := Next(s, e);
    if s' != s {
      ShareEncrypts(s, e);
      AddedToTally(s, e.key, e.share, e.value);
      RevealKeeps(s, e.key, s'.accumulators[e.key], s'.cast[e.key], s'.nullifiers);
    }
  }

  lemma ShareEncrypts(s: State, e: Event)
    requires ProofsHold(s, e) && e.Reveal?
    ensures Encrypts(s.round.eaPk, e.value, e.share)
  {
    hide EncryptCore;
  }

  lemma PartialsStep(s: State, e: Event)
    requires Inv(s) && ProofsHold(s, e) && e.SubmitPartials?
    ensures Inv(Next(s, e))
  {
    if PartialsAccepted(s, e.creator, e.index, e.entries) {
      PartialsKeep(s, e.creator, e.index, e.entries);
    }
  }

  /** Moving forward in time touches neither ciphertexts nor partials. */
  lemma StatusStep(s: State, status: Status, timedOut: bool, results: map<Key, nat>)
    requires Inv(s)
    requires (s.round.status.Active? && status.Tallying?) || (s.round.status.Tallying? && status.Finalized?)
    requires status.Tallying? ==> results == map[]
    requires status.Finalized? && !timedOut ==> TotalsCorrect(s.(results := results))
    ensures Inv(s.(round := s.round.(status := status, timedOut := timedOut), results := results))
  {
    hide CorrectPartial, Encrypts, EntryCorrect, InBounds;
  }

  lemma AcceptedTallyCorrect(s: State, tally: seq<TallyEntry>)
    requires Inv(s) && TallyAccepted(s, tally)
    ensures TotalsCorrect(s.(results := ResultMap(map[], tally)))
  {
    forall i | 0 <= i < |tally| ensures EntryCorrect(s.cast, tally[i].key, tally[i].total) {
      AcceptedEntryCorrect(s, tally[i]);
    }
    ResultsCorrect(s.cast, tally);
    forall k | k in s.cast ensures k in TallyKeys(tally) {
      assert k in s.accumulators && InBounds(s.round.options, k);
    }
  }

  lemma TallyStep(s: State, e: Event)
    requires Inv(s) && e.SubmitTally?
    ensures Inv(Next(s, e))
  {
    if TallyAccepted(s, e.tally) {
      AcceptedTallyCorrect(s, e.tally);
      StatusStep(s, Finalized, s.round.timedOut, ResultMap(map[], e.tally));
    }
  }

  lemma NextKeepsInv(s: State, e: Event)
    requires Inv(s) && ProofsHold(s, e)
    ensures Inv(Next(s, e))
  {
    match e
    case Contribute(creator, commitments, payloads, ok) =>
      ContributeKeeps(s.round, creator, commitments, payloads, ok);
      if Next(s, e) != s { CeremonyStep(s, Next(s, e).round); }
    case Ack(creator, ok) =>
      AckKeeps(s.round, creator, ok);
      if Next(s, e) != s { CeremonyStep(s, Next(s, e).round); }
    case Reveal(_, _, _, _, _) => RevealStep(s, e);
    case SubmitPartials(_, _, _) => PartialsStep(s, e);
    case SubmitTally(_) => TallyStep(s, e);
    case RegisteringTimeout =>
      if Next(s, e) != s { CeremonyStep(s, Next(s, e).round); }
    case DealtTimeout =>
      if s.round.status.Pending? && s.round.ceremony.Dealt? {
        EndAckPhaseKeeps(s.round);
        CeremonyStep(s, EndAckPhase(s.round));
      }
    case VotingEnds =>
      if s.round.status.Active? { StatusStep(s, Tallying, s.round.timedOut, s.results); }
    case TallyTimeout =>
      if s.round.status.Tallying? { StatusStep(s, Finalized, true, s.results); }
  }

  lemma InitialInv(s: State)
    requires Initial(s)
    ensures Inv(s)
  {
    forall i | 0 <= i < |s.round.validators| ensures s.round.validators[i].shamirIndex == i + 1 {
      assert s.round.validators[i] == Reindex(s.round.validators)[i];
    }
  }

  lemma {:induction false} RunKeepsInv(s: State, trace: seq<Event>, s': State)
    requires Inv(s) && Run(s, trace, s')
    ensures Inv(s')
    decreases |trace|
  {
    if trace != [] {
      NextKeepsInv(s, trace[0]);
      RunKeepsInv(Next(s, trace[0]), trace[1..], s');
    }
  }

  /** Safety over whole runs: whatever the order of messages and timeouts, and whichever validators
      contributed, acknowledged and answered, a round that finalizes without timing out publishes
      for every accumulator exactly the sum of the votes cast (sums below the group order). */
  lemma FinalizedTotalsAreVoteSums(s: State, trace: seq<Event>, s': State)
    requires Initial(s) && Run(s, trace, s')
    requires s'.round.status.Finalized? && !s'.round.timedOut
    requires Q > TALLY_BOUND
    ensures forall k :: k in s'.cast && Sum(s'.cast[k]) < Q ==> k in s'.results && s'.results[k] == Sum(s'.cast[k])
    ensures forall k :: k in s'.results && k !in s'.cast ==> s'.results[k] == 0
  {
    InitialInv(s);
    RunKeepsInv(s, trace, s');
    forall k | k in s'.cast && Sum(s'.cast[k]) < Q ensures k in s'.results && s'.results[k] == Sum(s'.cast[k]) {
      ScalarUnique(s'.results[k], Sum(s'.cast[k]));
    }
    forall k | k in s'.results && k !in s'.cast ensures s'.results[k] == 0 {
      ScalarUnique(s'.results[k], 0);
    }
  }
}
