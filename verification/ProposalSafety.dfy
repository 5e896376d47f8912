/** What acceptance of a block guarantees: an accepted injected message is its proposer's own and passes
    the guards of the chain's handler for it, and the injectors inject exactly such messages. */
module ProposalSafety {
  import opened Field
  import opened Group
  import opened ByteStrings
  import opened Shamir
  import opened ElGamal
  import opened Bsgs
  import opened Ecies
  import opened Round
  import opened Lifecycle
  import opened Tally
  import opened StepLaws
  import opened Ceremony
  import opened ShareFilter
  import opened ProposalCheck
  import opened ProposalBuild

  // ----- message by message

  ghost predicate ForProposer(c: Chain, m: Msg) {
    c.proposer == Some(m.creator) && m.round in c.rounds
  }

  /** An acknowledgment passes if and only if it is the proposer's and the handler would accept it. */
  lemma AckPassesExact(c: Chain, m: Msg)
    ensures ValidAck(c, m) <==>
      m.AckMsg? && ForProposer(c, m) && AckKey(c.rounds[m.round].round, m.creator, true).Ok?
  {
    if m.round in c.rounds {
      AckExact(c.rounds[m.round].round, m.creator, true);
    }
  }

  /** A contribution passes if and only if it is the proposer's, the round is registering, and the proposer
      is one of its validators without a contribution; every contribution the handler accepts passes. */
  lemma DkgPassesExact(c: Chain, m: Msg, commitments: seq<Point>, payloads: seq<Payload>, ok: bool)
    ensures ValidDkg(c, m) <==>
      && m.DkgMsg? && ForProposer(c, m)
      && var r := c.rounds[m.round].round;
      && r.status.Pending? && r.ceremony.Registering? && HasAddress(r.validators, m.creator)
      && forall i :: 0 <= i < |r.contributions| ==> r.contributions[i].from != m.creator
    ensures m.DkgMsg? && ForProposer(c, m) ==>
      ContributeDKG(c.rounds[m.round].round, m.creator, commitments, payloads, ok).Ok? ==> ValidDkg(c, m)
  {
    hide PayloadsCover, ThresholdForN;
    if m.round in c.rounds {
      FindValidatorFinds(c.rounds[m.round].round.validators, m.creator);
    }
  }

  /** The chain's view of the items, once their proofs are accepted. */
  ghost function WithProofs(items: seq<PartialItem>): (es: seq<PartialEntry>)
    ensures |es| == |items|
  {
    seq(|items|, i requires 0 <= i < |items| => PartialEntry(items[i].key, items[i].di, true))
  }

  lemma SameKeys(items: seq<PartialItem>)
    ensures ItemKeys(items) == PartialKeys(WithProofs(items))
  {
    var es := WithProofs(items);
    forall k ensures k in ItemKeys(items) <==> k in PartialKeys(es) {
      if k in ItemKeys(items) {
        var i :| 0 <= i < |items| && items[i].key == k;
        assert es[i].key == k;
      }
      if k in PartialKeys(es) {
        var i :| 0 <= i < |es| && es[i].key == k;
        assert items[i].key == k;
      }
    }
  }

  /** On a round that satisfies the invariant, a partial decryption passes if and only if it is the
      proposer's and the handler would accept it once its proofs are accepted. */
  lemma PartialPassesExact(c: Chain, m: Msg)
    requires m.PartialMsg? && m.round in c.rounds && Inv(c.rounds[m.round])
    ensures ValidPartial(c, m) <==>
      ForProposer(c, m) && MaySubmit(c.rounds[m.round], m.creator, m.index, WithProofs(m.items))
  {
    hide MaySubmit;
    var s := c.rounds[m.round];
    SubmissionGuards(s, m.creator, m.index, WithProofs(m.items));
    PassesGuards(c, m);
  }

  lemma PassesGuards(c: Chain, m: Msg)
    requires m.PartialMsg? && m.round in c.rounds && Inv(c.rounds[m.round])
    ensures ValidPartial(c, m) <==>
      ForProposer(c, m) && PartialsAccepted(c.rounds[m.round], m.creator, m.index, WithProofs(m.items))
  {
    hide Encrypts, CorrectPartial, FindValidator, ItemKeys, PartialKeys, InBounds;
    var s := c.rounds[m.round];
    SameKeys(m.items);
    assert forall i :: 0 <= i < |m.items| ==> WithProofs(m.items)[i].key == m.items[i].key;
    assert s.round.status.Tallying? ==> s.round.threshold != 0 && s.round.commitments != [];
    if FindValidator(s.round.validators, m.creator).Some? {
      SubmitterIndex(s.round, m.creator, FindValidator(s.round.validators, m.creator).value.shamirIndex);
    }
  }

  /** On a round that satisfies the invariant, a tally passes if and only if it is the proposer's, the round
      is tallying, every option voted for has an entry and every total is below 2^28. The handler then
      refuses it only for an entry that fails its own check. */
  lemma TallyPassesExact(c: Chain, m: Msg)
    requires m.TallyMsg? && m.round in c.rounds && Inv(c.rounds[m.round])
    ensures var s := c.rounds[m.round];
      && (ValidTally(c, m) <==>
        && ForProposer(c, m) && s.round.status.Tallying?
        && (forall k :: k in s.cast ==> exists i :: 0 <= i < |m.entries| && m.entries[i].key == k)
        && forall i :: 0 <= i < |m.entries| ==> m.entries[i].total < 0x1000_0000)
      && (ValidTally(c, m) ==>
        (TallyAccepted(s, m.entries) <==> forall i :: 0 <= i < |m.entries| ==> EntryAccepted(s, m.entries[i])))
  {
    hide Encrypts, CorrectPartial, EntryAccepted;
    var s := c.rounds[m.round];
    forall k ensures k in TallyKeys(m.entries) <==> exists i :: 0 <= i < |m.entries| && m.entries[i].key == k {
    }
    assert forall k :: k in s.accumulators ==> 1 <= k.proposal <= |s.round.options|;
  }

  // ----- transaction by transaction, block by block

  /** The decoded message has the transaction's tag and passes the check for it. */
  ghost predicate PassesAs(c: Chain, tag: byte, m: Msg) {
    && TagOf(m) == tag
    && match m
       case DkgMsg(_, _, _) => ValidDkg(c, m)
       case AckMsg(_, _) => ValidAck(c, m)
       case PartialMsg(_, _, _, _) => ValidPartial(c, m)
       case TallyMsg(_, _, _) => ValidTally(c, m)
  }

  /** A transaction of at least two bytes with tag 0x05, 0x08, 0x0D or 0x0E is accepted if and only if it
      decodes to a message of that tag that passes; any other transaction is accepted. */
  lemma TxAcceptedExact(codec: Codec, c: Chain, tx: Bytes)
    ensures TxAccepted(codec, c, tx) <==>
      (|tx| >= 2 && (tx[0] == 0x05 || tx[0] == 0x08 || tx[0] == 0x0D || tx[0] == 0x0E) ==>
        codec.decode(tx).Some? && PassesAs(c, tx[0], codec.decode(tx).value))
  {
    hide ValidPartial, ValidTally;
    if |tx| >= 2 && codec.decode(tx).Some? {
      KindsPass(c, codec.decode(tx).value);
    }
  }

  lemma KindsPass(c: Chain, m: Msg)
    ensures (ValidDkg(c, m) ==> m.DkgMsg?) && (ValidAck(c, m) ==> m.AckMsg?)
    ensures (ValidPartial(c, m) ==> m.PartialMsg?) && (ValidTally(c, m) ==> m.TallyMsg?)
  {
  }

  /** In every accepted block, every injected message was created by the block's proposer, for a stored
      round, by a member of its validator set unless it is a tally. */
  lemma AcceptedBlockIsProposers<K>(codec: Codec, keyOf: KeyOf<K>, c: Chain, block: seq<Bytes>, i: nat)
    requires Accepted(codec, keyOf, c, block) && i < |block| && |block[i]| >= 2
    requires block[i][0] == 0x05 || block[i][0] == 0x08 || block[i][0] == 0x0D || block[i][0] == 0x0E
    ensures codec.decode(block[i]).Some?
    ensures var m := codec.decode(block[i]).value;
      && TagOf(m) == block[i][0] && ForProposer(c, m)
      && (!m.TallyMsg? ==> HasAddress(c.rounds[m.round].round.validators, m.creator))
  {
    hide TxAccepted, CoversAll, InBounds;
    TxAcceptedExact(codec, c, block[i]);
    var m := codec.decode(block[i]).value;
    FindValidatorFinds(c.rounds[m.round].round.validators, m.creator);
  }

  /** The handler's verdict on what an accepted block carries: with matching digest, accepted proofs and
      entries that pass their check, every injected message takes effect on the state it was judged on. */
  lemma AcceptedMessagesTakeEffect(c: Chain, m: Msg)
    requires m.round in c.rounds && Inv(c.rounds[m.round]) && PassesAs(c, TagOf(m), m)
    ensures var s := c.rounds[m.round];
      && (m.AckMsg? ==> Next(s, Ack(m.creator, true)) != s)
      && (m.PartialMsg? ==> Next(s, SubmitPartials(m.creator, m.index, WithProofs(m.items))) != s)
      && (m.TallyMsg? && (forall i :: 0 <= i < |m.entries| ==> EntryAccepted(s, m.entries[i])) ==>
        Next(s, SubmitTally(m.entries)).round.status.Finalized?)
  {
    hide ValidPartial, ValidTally, ValidAck, EntryAccepted, MaySubmit, Inv, TallyAccepted, PartialsAccepted;
    var s := c.rounds[m.round];
    if m.AckMsg? {
      AckPassesExact(c, m);
      AckExact(s.round, m.creator, true);
    } else if m.PartialMsg? {
      PartialPassesExact(c, m);
      PartialsExact(s, m.creator, m.index, WithProofs(m.items));
    } else if m.TallyMsg? {
      TallyPassesExact(c, m);
    }
  }

  /** A tally that was injected is accepted by the chain, and finalizes its round. */
  lemma InjectedTallyTakesEffect(table: BSGSTable, c: Chain, node: Node, m: Msg)
    requires IsTallyInjection(table, c, node, Some(m)) && m.round in c.rounds
    requires Inv(c.rounds[m.round]) && ReadyTable(table)
    ensures m.TallyMsg? && TallyAccepted(c.rounds[m.round], m.entries)
    ensures Next(c.rounds[m.round], SubmitTally(m.entries)).round.status.Finalized?
  {
    hide DecryptKey, EntryAccepted, Inv, ReadyTable, ResultMap;
    var s := c.rounds[m.round];
    forall i | 0 <= i < |m.entries| ensures EntryAccepted(s, m.entries[i]) {
      DecryptedEntryPasses(s, table, m.entries[i]);
    }
    assert forall k :: Listed(s, k) ==> k in TallyKeys(m.entries);
  }

  lemma DecryptedEntryPasses(s: State, table: BSGSTable, e: TallyEntry)
    requires Inv(s) && ReadyTable(table) && Listed(s, e.key) && DecryptKey(s, table, e.key) == Ok(e.total)
    ensures EntryAccepted(s, e)
  {
    hide IsTable, CorrectPartial, Encrypts, Combined;
    SolveExact(table, PSub(s.accumulators[e.key].c2, Combined(PartialsFor(s, e.key))));
  }

  lemma ListedMeansCast(s: State)
    requires Inv(s)
    ensures HasListed(s) <==> s.cast != map[]
  {
    hide Encrypts, CorrectPartial;
    if s.cast != map[] {
      var k :| k in s.cast;
      assert Listed(s, k);
    }
  }

  /** On rounds that satisfy the invariant, with vote sums below the bound, a tally is injected if and only
      if the machine has a ceremony directory, the proposer resolves, some round is tallying, and in the
      first such round nothing was cast or a threshold of validators has answered. */
  lemma TallyInjectedExactly(table: BSGSTable, c: Chain, node: Node, o: Option<Msg>)
    requires IsTallyInjection(table, c, node, o) && ReadyTable(table) && TALLY_BOUND < Q
    requires forall id :: id in c.rounds ==> Inv(c.rounds[id]) && SumsBelowBound(c.rounds[id])
    ensures var id := FirstTallying(c, c.order);
      o.Some? <==>
        && node.ceremonyDir && c.proposer.Some? && id.Some? && id.value in c.rounds
        && var s := c.rounds[id.value];
        s.cast == map[] || |s.partials| >= s.round.threshold
  {
    hide DecryptKey, IsTally, ReadyTable, SumsBelowBound, Inv, HasListed;
    var id := FirstTallying(c, c.order);
    if id.Some? {
      var s := c.rounds[id.value];
      ListedMeansCast(s);
      if |s.partials| >= s.round.threshold {
        AllDecrypt(s, table);
      }
    }
  }

  lemma AllDecrypt(s: State, table: BSGSTable)
    requires Inv(s) && s.round.status.Tallying? && SumsBelowBound(s) && |s.partials| >= s.round.threshold
    requires ReadyTable(table) && TALLY_BOUND < Q
    ensures forall k :: Listed(s, k) ==> DecryptKey(s, table, k).Ok?
  {
    hide DecryptKey, ReadyTable, Encrypts, CorrectPartial;
    forall k | Listed(s, k) ensures DecryptKey(s, table, k).Ok? {
      DecryptsToVoteSum(s, table, k);
    }
  }

  /** On rounds that satisfy the invariant, a partial decryption is injected if and only if the machine has a
      ceremony directory, votes were cast in the first tallying round, the proposer is one of its
      validators with an index that has not answered, and its share file is the 32-byte encoding of a
      non-zero scalar. */
  lemma PartialInjectedExactly(u: Suite, c: Chain, node: Node, o: Option<Msg>)
    requires IsPartialInjection(u, c, node, o) && forall id :: id in c.rounds ==> Inv(c.rounds[id])
    ensures var id := FirstTallying(c, c.order);
      o.Some? <==>
        && node.ceremonyDir && c.proposer.Some? && id.Some? && id.value in c.rounds && id.value in node.shareFiles
        && c.rounds[id.value].cast != map[] && Unanswered(c.rounds[id.value], c.proposer.value)
        && var file := node.shareFiles[id.value];
        |file| == 32 && u.decScalar(file).Some? && u.decScalar(file).value != 0
  {
    hide HonestItems, Inv, HasListed, FindValidator, Unanswered;
    var id := FirstTallying(c, c.order);
    if id.Some? {
      ListedMeansCast(c.rounds[id.value]);
      if c.proposer.Some? {
        UnansweredFound(c.rounds[id.value], c.proposer.value);
      }
    }
  }

  ghost predicate Unanswered(s: State, a: Address) {
    exists i :: 0 <= i < |s.round.validators|
      && s.round.validators[i].address == a && s.round.validators[i].shamirIndex !in s.partials
  }

  lemma UnansweredFound(s: State, a: Address)
    requires Inv(s)
    ensures var v := FindValidator(s.round.validators, a);
      (v.Some? && v.value.shamirIndex !in s.partials) <==> Unanswered(s, a)
  {
    hide AccumulatorInv, PartialInv, FindValidator;
    var vs := s.round.validators;
    FindValidatorFinds(vs, a);
    if FindValidator(vs, a).Some? {
      var i :| 0 <= i < |vs| && vs[i] == FindValidator(vs, a).value;
    }
  }

  ghost function Rank(m: Msg): nat {
    match m
    case TallyMsg(_, _, _) => 0
    case PartialMsg(_, _, _, _) => 1
    case AckMsg(_, _) => 2
    case DkgMsg(_, _, _) => 3
  }

  /** At most one message of each kind is injected: tally, then partial decryption, acknowledgment,
      contribution. */
  lemma InjectedInOrder(u: Suite, table: BSGSTable, c: Chain, node: Node, partial: Option<Msg>, tally: Option<Msg>)
    requires IsPartialInjection(u, c, node, partial) && IsTallyInjection(table, c, node, tally)
    ensures var ms := Injected(c, node, partial, tally);
      forall i, j :: 0 <= i < j < |ms| ==> Rank(ms[i]) < Rank(ms[j])
  {
    hide IsPartialInjection, IsTallyInjection, AckInjection, DkgInjection, Rank;
    InjectedKinds(u, table, c, node, partial, tally);
    var ack, dkg := AckInjection(c, node), DkgInjection(c, node);
    Ascends(Opt(ack), Opt(dkg), 3);
    Ascends(Opt(partial), Opt(ack) + Opt(dkg), 2);
    Ascends(Opt(tally), Opt(partial) + (Opt(ack) + Opt(dkg)), 1);
  }

  lemma InjectedKinds(u: Suite, table: BSGSTable, c: Chain, node: Node, partial: Option<Msg>, tally: Option<Msg>)
    requires IsPartialInjection(u, c, node, partial) && IsTallyInjection(table, c, node, tally)
    ensures (tally.Some? ==> Rank(tally.value) == 0) && (partial.Some? ==> Rank(partial.value) == 1)
    ensures AckInjection(c, node).Some? ==> Rank(AckInjection(c, node).value) == 2
    ensures DkgInjection(c, node).Some? ==> Rank(DkgInjection(c, node).value) == 3
  {
    hide HonestItems, IsTally, FirstPending, FirstTallying, FindValidator;
  }

  ghost predicate RanksAscend(ms: seq<Msg>, from: nat) {
    && (forall i :: 0 <= i < |ms| ==> Rank(ms[i]) >= from)
    && forall i, j :: 0 <= i < j < |ms| ==> Rank(ms[i]) < Rank(ms[j])
  }

  /** A message of a lower rank may come first. */
  lemma Ascends(first: seq<Msg>, rest: seq<Msg>, from: nat)
    requires from > 0 && |first| <= 1 && RanksAscend(rest, from)
    requires forall i :: 0 <= i < |first| ==> Rank(first[i]) == from - 1
    ensures RanksAscend(first + rest, from - 1)
  {
    hide Rank;
    var all := first + rest;
    assert forall i :: |first| <= i < |all| ==> all[i] == rest[i - |first|];
  }

  // ----- the ceremony injectors

  /** A contribution is injected if and only if the key loads, one was dealt, and it passes for the first
      registering round; an acknowledgment if and only if the key loads, the share was recovered, the
      stored index is not zero, and it passes for the first dealt round. */
  lemma CeremonyInjectionsExact(c: Chain, node: Node)
    ensures var id := FirstPending(c, c.order, Registering);
      var may := node.keyLoads && node.contribution.Some? && c.proposer.Some? && id.Some?;
      && (may ==>
        var m := DkgMsg(id.value, c.proposer.value, node.contribution.value);
        DkgInjection(c, node) == if ValidDkg(c, m) then Some(m) else None)
      && (!may ==> DkgInjection(c, node) == None)
    ensures var id := FirstPending(c, c.order, Dealt);
      var may := node.keyLoads && node.recoversShare && c.proposer.Some? && id.Some?;
      && (may ==>
        var m := AckMsg(id.value, c.proposer.value);
        && id.value in c.rounds
        && var v := FindValidator(c.rounds[id.value].round.validators, m.creator);
        AckInjection(c, node) == if ValidAck(c, m) && v.value.shamirIndex != 0 then Some(m) else None)
      && (!may ==> AckInjection(c, node) == None)
  {
  }
}
