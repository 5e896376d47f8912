/** One voting round as the chain stores it, and the transitions the message handlers and the
    end-of-block timeouts perform on it (x/vote/keeper and x/vote/module.go). A rejected message
    leaves the state unchanged. `cast` lists the plaintexts behind the accumulators: the chain never
    sees them, they are recorded only to say what the published totals mean. */
module Round {
  import opened Field
  import opened Polynomial
  import opened Group
  import opened Shamir
  import opened Feldman
  import opened ElGamal

  const TALLY_BOUND: nat := 0x1000_0000

  const INDEX_LIMIT: nat := 0x1_0000_0000

  type Address = string

  datatype Status = Pending | Active | Tallying | Finalized | CeremonyFailed

  datatype Ceremony = Registering | Dealt | Confirmed

  datatype Validator = Validator(address: Address, pallasPk: Point, shamirIndex: nat)

  datatype Payload = Payload(to: Address, ephemeral: Point)

  datatype Contribution = Contribution(from: Address, commitments: seq<Point>, payloads: seq<Payload>)

  /** A (proposal, decision) pair; proposal ids start at 1. */
  datatype Key = Key(proposal: nat, decision: nat)

  datatype VoteRound = VoteRound(
    status: Status,
    ceremony: Ceremony,
    validators: seq<Validator>,
    contributions: seq<Contribution>,
    acks: seq<Address>,
    eaPk: Point,
    commitments: seq<Point>,
    threshold: nat,
    options: seq<nat>,
    timedOut: bool)

  datatype State = State(
    round: VoteRound,
    accumulators: map<Key, Ciphertext>,
    nullifiers: set<string>,
    partials: map<nat, map<Key, Point>>,
    results: map<Key, nat>,
    cast: map<Key, seq<nat>>)

  datatype PartialEntry = PartialEntry(key: Key, di: Point, proofAccepted: bool)

  datatype TallyEntry = TallyEntry(key: Key, total: nat)

  datatype Event =
    | Contribute(creator: Address, commitments: seq<Point>, payloads: seq<Payload>, proofAccepted: bool)
    | Ack(creator: Address, digestMatches: bool)
    | Reveal(key: Key, share: Ciphertext, nullifier: string, value: nat, randomness: Scalar)
    | SubmitPartials(creator: Address, index: nat, entries: seq<PartialEntry>)
    | SubmitTally(tally: seq<TallyEntry>)
    | RegisteringTimeout
    | DealtTimeout
    | VotingEnds
    | TallyTimeout

  // ----- thresholds and lookups

  function Max(a: nat, b: nat): nat {
    if a < b then b else a
  }

  function ThresholdForN(n: nat): Result<nat> {
    if n < 1 then Err
    else if n == 1 then Ok(1)
    else Ok(Max(2, (2 * n + 2) / 3))
  }

  function RequiredQuorum(n: nat): nat {
    (4 * n + 4) / 5
  }

  /** The acknowledgement quorum is never below the decryption threshold. */
  lemma QuorumCoversThreshold(n: nat)
    requires n >= 1
    ensures ThresholdForN(n).Ok? && 1 <= ThresholdForN(n).value <= RequiredQuorum(n) <= n
  {
  }

  /** The lower limit of two never takes effect. */
  lemma ThresholdLimitIdle(n: nat)
    requires n >= 2
    ensures ThresholdForN(n) == Ok((2 * n + 2) / 3)
  {
  }

  function FindValidator(vs: seq<Validator>, a: Address): Option<Validator> {
    if vs == [] then None
    else if vs[0].address == a then Some(vs[0])
    else FindValidator(vs[1..], a)
  }

  lemma {:induction false} FindValidatorFinds(vs: seq<Validator>, a: Address)
    ensures FindValidator(vs, a).Some? <==> exists i :: 0 <= i < |vs| && vs[i].address == a
    ensures FindValidator(vs, a).Some? ==> FindValidator(vs, a).value in vs && FindValidator(vs, a).value.address == a
  {
    if vs != [] && vs[0].address != a {
      FindValidatorFinds(vs[1..], a);
      if exists i :: 0 <= i < |vs| && vs[i].address == a {
        var i :| 0 <= i < |vs| && vs[i].address == a;
        assert vs[1..][i - 1].address == a;
      }
    }
  }

  predicate HasContributed(cs: seq<Contribution>, a: Address) {
    exists i :: 0 <= i < |cs| && cs[i].from == a
  }

  predicate InBounds(options: seq<nat>, k: Key) {
    1 <= k.proposal <= |options| && 2 <= options[k.proposal - 1] <= 8 && k.decision < options[k.proposal - 1]
  }

  /** The stored partials for one accumulator, in ascending validator index. */
  function PartialsBelow(partials: map<nat, map<Key, Point>>, k: Key, n: nat): seq<PartialDecryption> {
    if n == 0 then []
    else if n - 1 in partials && k in partials[n - 1] then
      PartialsBelow(partials, k, n - 1) + [PartialDecryption(n - 1, partials[n - 1][k])]
    else PartialsBelow(partials, k, n - 1)
  }

  function IndexLimit(): nat {
    INDEX_LIMIT
  }

  function PartialsFor(s: State, k: Key): seq<PartialDecryption> {
    PartialsBelow(s.partials, k, IndexLimit())
  }

  // ----- key ceremony

  predicate PayloadsCover(r: VoteRound, creator: Address, payloads: seq<Payload>) {
    && |payloads| == |r.validators| - 1
    && (forall i :: 0 <= i < |payloads| ==>
      && payloads[i].to != creator
      && FindValidator(r.validators, payloads[i].to).Some?
      && payloads[i].ephemeral != Identity)
    && (forall i, j :: 0 <= i < j < |payloads| ==> payloads[i].to != payloads[j].to)
  }

  function CommitmentVectors(cs: seq<Contribution>): (vs: seq<seq<Point>>)
    ensures |vs| == |cs|
  {
    seq(|cs|, i requires 0 <= i < |cs| => cs[i].commitments)
  }

  function Reindex(vs: seq<Validator>): (ws: seq<Validator>)
    ensures |ws| == |vs|
  {
    seq(|vs|, i requires 0 <= i < |vs| => vs[i].(shamirIndex := i + 1))
  }

  /** Combines the commitments once the last contribution has arrived. */
  ghost function FinalizeDKG(r: VoteRound, t: nat): Result<VoteRound> {
    var vs := CommitmentVectors(r.contributions);
    if !(vs != [] && vs[0] != [] && SameLength(vs, |vs[0]|)) then Err
    else
      var combined := CombinedVector(vs, |vs[0]|);
      if combined[0] == Identity
         || exists i :: 1 <= i <= |r.validators| && CommitmentAt(combined, i) == Identity
      then Err
      else Ok(r.(eaPk := combined[0], commitments := combined, threshold := t,
                 validators := Reindex(r.validators), ceremony := Dealt))
  }

  ghost function ContributeDKG(r: VoteRound, creator: Address, commitments: seq<Point>,
                               payloads: seq<Payload>, proofAccepted: bool): Result<VoteRound>
  {
    var n := |r.validators|;
    if !(r.status.Pending? && r.ceremony.Registering?) || n == 0 then Err
    else if FindValidator(r.validators, creator).None? || HasContributed(r.contributions, creator) then Err
    else if |commitments| != ThresholdForN(n).value || Identity in commitments then Err
    else if !PayloadsCover(r, creator, payloads) || !proofAccepted then Err
    else
      var r' := r.(contributions := r.contributions + [Contribution(creator, commitments, payloads)]);
      if |r'.contributions| == n then FinalizeDKG(r', ThresholdForN(n).value) else Ok(r')
  }

  function AckKey(r: VoteRound, creator: Address, digestMatches: bool): Result<VoteRound> {
    if !(r.status.Pending? && r.ceremony.Dealt?) then Err
    else if FindValidator(r.validators, creator).None? || creator in r.acks || !digestMatches then Err
    else
      var r' := r.(acks := r.acks + [creator]);
      if |r'.acks| == |r'.validators| then Ok(r'.(ceremony := Confirmed, status := Active)) else Ok(r')
  }

  function KeepAckedValidators(vs: seq<Validator>, acks: seq<Address>): seq<Validator> {
    if vs == [] then []
    else if vs[0].address in acks then [vs[0]] + KeepAckedValidators(vs[1..], acks)
    else KeepAckedValidators(vs[1..], acks)
  }

  function KeepAckedContributions(cs: seq<Contribution>, acks: seq<Address>): seq<Contribution> {
    if cs == [] then []
    else if cs[0].from in acks then [cs[0]] + KeepAckedContributions(cs[1..], acks)
    else KeepAckedContributions(cs[1..], acks)
  }

  function StripNonAckers(r: VoteRound): VoteRound {
    r.(validators := KeepAckedValidators(r.validators, r.acks),
       contributions := KeepAckedContributions(r.contributions, r.acks))
  }

  function EndAckPhase(r: VoteRound): VoteRound {
    if |r.validators| == 0 || |r.acks| < RequiredQuorum(|r.validators|) then r.(status := CeremonyFailed)
    else StripNonAckers(r).(ceremony := Confirmed, status := Active)
  }

  // ----- voting and tallying

  predicate NonIdentity(ct: Ciphertext) {
    ct.c1 != Identity && ct.c2 != Identity
  }

  function AddToTally(acc: map<Key, Ciphertext>, k: Key, share: Ciphertext): Result<map<Key, Ciphertext>> {
    if !NonIdentity(share) then Err
    else if k !in acc then Ok(acc[k := share])
    else if !NonIdentity(HomomorphicAdd(acc[k], share)) then Err
    else Ok(acc[k := HomomorphicAdd(acc[k], share)])
  }

  predicate CoversAll(s: State, keys: set<Key>) {
    forall k :: k in s.accumulators && 1 <= k.proposal <= |s.round.options| ==> k in keys
  }

  function EntryMap(entries: seq<PartialEntry>): map<Key, Point> {
    if entries == [] then map[]
    else EntryMap(entries[..|entries| - 1])[entries[|entries| - 1].key := entries[|entries| - 1].di]
  }

  function PartialKeys(entries: seq<PartialEntry>): set<Key> {
    set i | 0 <= i < |entries| :: entries[i].key
  }

  ghost predicate PartialsAccepted(s: State, creator: Address, index: nat, entries: seq<PartialEntry>) {
    var v := FindValidator(s.round.validators, creator);
    && s.round.status.Tallying?
    && v.Some? && v.value.shamirIndex == index && index !in s.partials
    && entries != [] && CoversAll(s, PartialKeys(entries))
    && s.round.commitments != [] && index > 0
    && forall i :: 0 <= i < |entries| ==>
      InBounds(s.round.options, entries[i].key) && entries[i].key in s.accumulators && entries[i].proofAccepted
  }

  /** The per-entry check of a submitted tally. */
  ghost predicate EntryAccepted(s: State, e: TallyEntry) {
    && InBounds(s.round.options, e.key)
    && e.total < TALLY_BOUND
    && if e.key !in s.accumulators then e.total == 0
       else
         var ps := PartialsFor(s, e.key);
         && Combinable(ps, s.round.threshold)
         && PSub(s.accumulators[e.key].c2, Combined(ps)) == ValuePoint(e.total)
  }

  function TallyKeys(entries: seq<TallyEntry>): set<Key> {
    set i | 0 <= i < |entries| :: entries[i].key
  }

  ghost predicate TallyAccepted(s: State, entries: seq<TallyEntry>) {
    && s.round.status.Tallying?
    && (forall i :: 0 <= i < |entries| ==> EntryAccepted(s, entries[i]))
    && CoversAll(s, TallyKeys(entries))
  }

  function ResultMap(results: map<Key, nat>, entries: seq<TallyEntry>): map<Key, nat> {
    if entries == [] then results
    else ResultMap(results, entries[..|entries| - 1])[entries[|entries| - 1].key := entries[|entries| - 1].total]
  }

  ghost function Next(s: State, e: Event): State {
    var r := s.round;
    match e
    case Contribute(creator, commitments, payloads, ok) =>
      (match ContributeDKG(r, creator, commitments, payloads, ok)
       case Ok(r') => s.(round := r')
       case Err => s)
    case Ack(creator, ok) =>
      (match AckKey(r, creator, ok)
       case Ok(r') => s.(round := r')
       case Err => s)
    case Reveal(k, share, nullifier, value, _) =>
      if !r.status.Active? || !InBounds(r.options, k) || nullifier in s.nullifiers then s
      else
        (match AddToTally(s.accumulators, k, share)
         case Ok(acc) =>
           s.(accumulators := acc, nullifiers := s.nullifiers + {nullifier},
              cast := s.cast[k := (if k in s.cast then s.cast[k] else []) + [value]])
         case Err => s)
    case SubmitPartials(creator, index, entries) =>
      if PartialsAccepted(s, creator, index, entries)
      then s.(partials := s.partials[index := EntryMap(entries)]) else s
    case SubmitTally(entries) =>
      if TallyAccepted(s, entries)
      then s.(results := ResultMap(s.results, entries), round := r.(status := Finalized)) else s
    case RegisteringTimeout =>
      if r.status.Pending? && r.ceremony.Registering? then s.(round := r.(status := CeremonyFailed)) else s
    case DealtTimeout =>
      if r.status.Pending? && r.ceremony.Dealt? then s.(round := EndAckPhase(r)) else s
    case VotingEnds =>
      if r.status.Active? then s.(round := r.(status := Tallying)) else s
    case TallyTimeout =>
      if r.status.Tallying? then s.(round := r.(status := Finalized, timedOut := true)) else s
  }
}
