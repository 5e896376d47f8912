/** How every validator judges a proposed block (app/process_proposal.go). */
module ProposalCheck {
  import opened Field
  import opened Group
  import opened ByteStrings
  import opened Round
  import opened Ceremony
  import opened ShareFilter

  const TAG_SUBMIT_TALLY: byte := 0x05
  const TAG_ACK: byte := 0x08
  const TAG_PARTIAL_DECRYPTION: byte := 0x0D
  const TAG_CONTRIBUTE_DKG: byte := 0x0E

  /** The committed state: the stored rounds, the order the store lists them in, and the validator
      behind the block's proposer address, if it resolves. */
  datatype Chain = Chain(rounds: map<Bytes, State>, order: seq<Bytes>, proposer: Option<Address>)

  datatype PartialItem = PartialItem(key: Key, di: Point, proof: Bytes)

  /** The messages a proposer injects. */
  datatype Msg =
    | DkgMsg(round: Bytes, creator: Address, contribution: WireContribution)
    | AckMsg(round: Bytes, creator: Address)
    | PartialMsg(round: Bytes, creator: Address, index: nat, items: seq<PartialItem>)
    | TallyMsg(round: Bytes, creator: Address, entries: seq<TallyEntry>)

  function TagOf(m: Msg): byte {
    match m
    case DkgMsg(_, _, _) => TAG_CONTRIBUTE_DKG
    case AckMsg(_, _) => TAG_ACK
    case PartialMsg(_, _, _, _) => TAG_PARTIAL_DECRYPTION
    case TallyMsg(_, _, _) => TAG_SUBMIT_TALLY
  }

  /** The wire format: a tag byte and the encoded message. */
  datatype Codec = Codec(encode: Msg -> Bytes, decode: Bytes -> Option<Msg>)

  ghost predicate LawfulCodec(c: Codec) {
    forall m: Msg ::
      && |c.encode(m)| >= 2 && c.encode(m)[0] == TagOf(m) && c.decode(c.encode(m)) == Some(m)
  }

  // ----- the four validators

  predicate ValidDkg(c: Chain, m: Msg) {
    && m.DkgMsg? && m.round in c.rounds
    && var r := c.rounds[m.round].round;
    && r.status.Pending? && r.ceremony.Registering?
    && FindValidator(r.validators, m.creator).Some?
    && !HasContributed(r.contributions, m.creator)
    && c.proposer == Some(m.creator)
  }

  predicate ValidAck(c: Chain, m: Msg) {
    && m.AckMsg? && m.round in c.rounds
    && var r := c.rounds[m.round].round;
    && r.status.Pending? && r.ceremony.Dealt?
    && FindValidator(r.validators, m.creator).Some?
    && m.creator !in r.acks
    && c.proposer == Some(m.creator)
  }

  function ItemKeys(items: seq<PartialItem>): set<Key> {
    set i | 0 <= i < |items| :: items[i].key
  }

  predicate ValidPartial(c: Chain, m: Msg) {
    && m.PartialMsg? && m.round in c.rounds
    && var s := c.rounds[m.round];
    && s.round.status.Tallying? && s.round.threshold != 0
    && m.items != [] && CoversAll(s, ItemKeys(m.items))
    && (forall i :: 0 <= i < |m.items| ==>
      InBounds(s.round.options, m.items[i].key) && m.items[i].key in s.accumulators)
    && var v := FindValidator(s.round.validators, m.creator);
    && v.Some? && m.index == v.value.shamirIndex && m.index !in s.partials
    && c.proposer == Some(m.creator)
  }

  predicate ValidTally(c: Chain, m: Msg) {
    && m.TallyMsg? && m.round in c.rounds
    && var s := c.rounds[m.round];
    && s.round.status.Tallying? && c.proposer == Some(m.creator)
    && CoversAll(s, TallyKeys(m.entries))
    && forall i :: 0 <= i < |m.entries| ==> m.entries[i].total < TALLY_BOUND
  }

  predicate IsInjectedTag(t: byte) {
    t == TAG_CONTRIBUTE_DKG || t == TAG_ACK || t == TAG_PARTIAL_DECRYPTION || t == TAG_SUBMIT_TALLY
  }

  /** Only injected messages are looked at; anything shorter than two bytes passes. */
  predicate TxAccepted(codec: Codec, c: Chain, tx: Bytes) {
    |tx| < 2 || !IsInjectedTag(tx[0]) ||
    match codec.decode(tx)
    case None => false
    case Some(m) =>
      if tx[0] == TAG_CONTRIBUTE_DKG then ValidDkg(c, m)
      else if tx[0] == TAG_ACK then ValidAck(c, m)
      else if tx[0] == TAG_PARTIAL_DECRYPTION then ValidPartial(c, m)
      else ValidTally(c, m)
  }

  ghost predicate Accepted<K>(codec: Codec, keyOf: KeyOf<K>, c: Chain, block: seq<Bytes>) {
    ValidSubmissions(keyOf, block) && forall i :: 0 <= i < |block| ==> TxAccepted(codec, c, block[i])
  }

  /** The handler: rejects at the first offence. */
  method ProcessProposal<K(!new, ==)>(codec: Codec, keyOf: KeyOf<K>, c: Chain, block: seq<Bytes>) returns (accept: bool)
    ensures accept <==> Accepted(codec, keyOf, c, block)
  {
    hide ValidSubmissions, TxAccepted;
    var submissionsOk := ValidateSubmissions(keyOf, block);
    if !submissionsOk {
      return false;
    }
    for n := 0 to |block|
      invariant forall i :: 0 <= i < n ==> TxAccepted(codec, c, block[i])
    {
      if !TxAccepted(codec, c, block[n]) {
        return false;
      }
    }
    return true;
  }
}
