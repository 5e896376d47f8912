/** Builder and checker agree: when validators accept the block that an honest proposer built. */
module ProposalAgreement {
  import opened Field
  import opened Polynomial
  import opened Group
  import opened Shamir
  import opened Feldman
  import opened ElGamal
  import opened Bsgs
  import opened ByteStrings
  import opened Ecies
  import opened Sigma
  import opened Round
  import opened Lifecycle
  import opened Tally
  import opened ShareFilter
  import opened ProposalCheck
  import opened ProposalBuild

  lemma CeremonyMessagesAccepted(codec: Codec, c: Chain, node: Node)
    requires LawfulCodec(codec)
    ensures DkgInjection(c, node).Some? ==> TxAccepted(codec, c, codec.encode(DkgInjection(c, node).value))
    ensures AckInjection(c, node).Some? ==> TxAccepted(codec, c, codec.encode(AckInjection(c, node).value))
  {
  }

  /** The round is in threshold mode and every accumulator belongs to an option of its proposal. */
  ghost predicate InThresholdMode(s: State) {
    s.round.threshold != 0 && forall k :: Listed(s, k) ==> InBounds(s.round.options, k)
  }

  lemma PartialMessageAccepted(codec: Codec, u: Suite, c: Chain, node: Node, m: Msg)
    requires LawfulCodec(codec) && IsPartialInjection(u, c, node, Some(m))
    ensures m.round in c.rounds
    ensures TxAccepted(codec, c, codec.encode(m)) <==> InThresholdMode(c.rounds[m.round])
  {
    hide HonestItem;
    var s := c.rounds[m.round];
    var share := UnmarshalSecretKey(u, node.shareFiles[m.round]).value;
    ItemsAreListed(u, s, share, node.nonce, m.items);
  }

  lemma ItemsAreListed(u: Suite, s: State, share: Scalar, nonce: Key -> Scalar, items: seq<PartialItem>)
    requires HonestItems(u, s, share, nonce, items)
    ensures CoversAll(s, ItemKeys(items)) && (HasListed(s) ==> items != [])
    ensures forall i :: 0 <= i < |items| ==> items[i].key in s.accumulators
    ensures (forall i :: 0 <= i < |items| ==> InBounds(s.round.options, items[i].key))
        <==> forall k :: Listed(s, k) ==> InBounds(s.round.options, k)
  {
    forall k | Listed(s, k) ensures exists i :: 0 <= i < |items| && items[i].key == k {
      assert k in ItemKeys(items);
    }
    assert forall i :: 0 <= i < |items| ==> Listed(s, items[i].key);
  }

  lemma TallyMessageAccepted(codec: Codec, table: BSGSTable, c: Chain, node: Node, m: Msg)
    requires LawfulCodec(codec) && ReadyTable(table) && IsTallyInjection(table, c, node, Some(m))
    ensures TxAccepted(codec, c, codec.encode(m))
  {
    hide IsTable, InBounds, DecryptKey;
    var s := c.rounds[m.round];
    forall i | 0 <= i < |m.entries| ensures m.entries[i].total < TALLY_BOUND {
      DecryptsBelowBound(s, table, m.entries[i].key);
    }
    assert CoversAll(s, TallyKeys(m.entries)) by {
      forall k | k in s.accumulators && 1 <= k.proposal <= |s.round.options| ensures k in TallyKeys(m.entries) {
        assert Listed(s, k);
      }
    }
  }

  lemma DecryptsBelowBound(s: State, table: BSGSTable, k: Key)
    requires k in s.accumulators && ReadyTable(table) && DecryptKey(s, table, k).Ok?
    ensures DecryptKey(s, table, k).value < TALLY_BOUND
  {
    SolveExact(table, PSub(s.accumulators[k].c2, Combined(PartialsFor(s, k))));
  }

  // ----- the injected part of a block

  lemma InjectedAccepted(codec: Codec, u: Suite, table: BSGSTable, c: Chain, node: Node, partial: Option<Msg>,
                         tally: Option<Msg>, i: nat)
    requires LawfulCodec(codec) && ReadyTable(table)
    requires IsPartialInjection(u, c, node, partial) && IsTallyInjection(table, c, node, tally)
    requires i < |Injected(c, node, partial, tally)|
    ensures partial.Some? ==> partial.value.round in c.rounds
    ensures TxAccepted(codec, c, codec.encode(Injected(c, node, partial, tally)[i])) <==>
      (partial.Some? && i == |Opt(tally)| ==> InThresholdMode(c.rounds[partial.value.round]))
  {
    hide TxAccepted, DkgInjection, AckInjection, IsPartialInjection, IsTallyInjection, InThresholdMode, LawfulCodec,
      ReadyTable;
    CeremonyMessagesAccepted(codec, c, node);
    if tally.Some? {
      TallyMessageAccepted(codec, table, c, node, tally.value);
    }
    if partial.Some? {
      PartialMessageAccepted(codec, u, c, node, partial.value);
    }
  }

  lemma {:induction false} PrependMessages<K(!new)>(codec: Codec, keyOf: KeyOf<K>, ms: seq<Msg>, txs: seq<Bytes>)
    requires LawfulCodec(codec) && ValidSubmissions(keyOf, txs)
    ensures ValidSubmissions(keyOf, Encoded(codec, ms) + txs)
  {
    hide ValidSubmissions;
    if ms == [] {
      assert Encoded(codec, ms) + txs == txs;
    } else {
      var rest := Encoded(codec, ms[1..]) + txs;
      PrependMessages(codec, keyOf, ms[1..], txs);
      assert Encoded(codec, ms) + txs == [codec.encode(ms[0])] + rest;
      PrependValid(keyOf, codec.encode(ms[0]), rest);
    }
  }

  /** The submission rules hold of every block that is built. */
  lemma BuiltSubmissionsValid<K(!new)>(codec: Codec, keyOf: KeyOf<K>, ms: seq<Msg>, mempool: seq<Bytes>,
                                       block: seq<Bytes>)
    requires LawfulCodec(codec)
    requires |block| <= |Encoded(codec, ms) + Surviving(keyOf, mempool)|
    requires block == (Encoded(codec, ms) + Surviving(keyOf, mempool))[..|block|]
    ensures ValidSubmissions(keyOf, block)
  {
    hide ValidSubmissions, Surviving, LawfulCodec;
    ValidIffUnchanged(keyOf, mempool);
    PrependMessages(codec, keyOf, ms, Surviving(keyOf, mempool));
    PrefixValid(keyOf, Encoded(codec, ms) + Surviving(keyOf, mempool), |block|);
  }

  /** For every state, mempool, machine and byte budget, the built block is accepted if and only if the
      mempool transactions left in it are, and the proposer's partial decryption, when the budget left
      it in, is for a round in threshold mode. */
  lemma BuilderCheckerAgree<K(!new)>(codec: Codec, keyOf: KeyOf<K>, size: Bytes -> nat, u: Suite, table: BSGSTable,
                                     c: Chain, node: Node, mempool: seq<Bytes>, maxTxBytes: int,
                                     partial: Option<Msg>, tally: Option<Msg>, block: seq<Bytes>)
    requires LawfulCodec(codec) && ReadyTable(table)
    requires IsProposal(codec, keyOf, size, u, table, c, node, mempool, maxTxBytes, partial, tally, block)
    ensures partial.Some? ==> partial.value.round in c.rounds
    ensures Accepted(codec, keyOf, c, block) <==>
      && (forall i :: |Injected(c, node, partial, tally)| <= i < |block| ==> TxAccepted(codec, c, block[i]))
      && (partial.Some? && |Opt(tally)| < |block| ==> InThresholdMode(c.rounds[partial.value.round]))
  {
    hide TxAccepted, IsPartialInjection, IsTallyInjection, InThresholdMode, LawfulCodec, ReadyTable, TotalSize,
         ValidSubmissions, Surviving, AckInjection, DkgInjection;
    var ms, p := Injected(c, node, partial, tally), |Opt(tally)|;
    BuiltSubmissionsValid(codec, keyOf, ms, mempool, block);
    if partial.Some? {
      assert ms[p] == partial.value;
      InjectedAccepted(codec, u, table, c, node, partial, tally, p);
    }
    var fits := partial.Some? ==> InThresholdMode(c.rounds[partial.value.round]);
    forall i | 0 <= i < |ms| && i < |block| ensures TxAccepted(codec, c, block[i]) <==> (i == p ==> fits) {
      assert block[i] == codec.encode(ms[i]);
      InjectedAccepted(codec, u, table, c, node, partial, tally, i);
    }
    assert partial.Some? && p < |block| ==> (TxAccepted(codec, c, block[p]) <==> fits);
  }

  // ----- on reachable states

  ghost predicate NoInjectedTags(mempool: seq<Bytes>) {
    forall i :: 0 <= i < |mempool| ==> |mempool[i]| < 2 || !IsInjectedTag(mempool[i][0])
  }

  lemma {:induction false} SurvivorsUntagged<K(!new)>(keyOf: KeyOf<K>, mempool: seq<Bytes>)
    requires NoInjectedTags(mempool)
    ensures NoInjectedTags(Surviving(keyOf, mempool))
  {
    hide Keys;
    if mempool != [] {
      var n := |mempool| - 1;
      SurvivorsUntagged(keyOf, mempool[..n]);
    }
  }

  ghost predicate AllReachable(c: Chain) {
    forall id :: id in c.rounds ==> Inv(c.rounds[id])
  }

  lemma TallyingIsThresholdMode(s: State)
    requires Inv(s) && s.round.status.Tallying?
    ensures InThresholdMode(s)
  {
  }

  /** On every state whose rounds satisfy the lifecycle invariant, a block built over a mempool without
      injected tags is accepted, whatever the byte budget. */
  lemma HonestProposalAccepted<K(!new)>(codec: Codec, keyOf: KeyOf<K>, size: Bytes -> nat, u: Suite, table: BSGSTable,
                                        c: Chain, node: Node, mempool: seq<Bytes>, maxTxBytes: int,
                                        partial: Option<Msg>, tally: Option<Msg>, block: seq<Bytes>)
    requires LawfulCodec(codec) && ReadyTable(table) && AllReachable(c) && NoInjectedTags(mempool)
    requires IsProposal(codec, keyOf, size, u, table, c, node, mempool, maxTxBytes, partial, tally, block)
    ensures Accepted(codec, keyOf, c, block)
  {
    hide Inv, InThresholdMode, LawfulCodec, ReadyTable, TotalSize, ValidSubmissions, Surviving, Injected,
         IsPartialInjection, IsTallyInjection, TxAccepted, NoInjectedTags, Accepted, Encoded;
    BuilderCheckerAgree(codec, keyOf, size, u, table, c, node, mempool, maxTxBytes, partial, tally, block);
    var ms := Injected(c, node, partial, tally);
    SurvivorsAccepted(codec, keyOf, c, mempool, Encoded(codec, ms), block);
    if partial.Some? {
      PartialIsForTallying(u, c, node, partial.value);
      TallyingIsThresholdMode(c.rounds[partial.value.round]);
    }
  }

  lemma PartialIsForTallying(u: Suite, c: Chain, node: Node, m: Msg)
    requires IsPartialInjection(u, c, node, Some(m))
    ensures m.round in c.rounds && c.rounds[m.round].round.status.Tallying?
  {
    hide HonestItems;
  }

  lemma SurvivorsAccepted<K(!new)>(codec: Codec, keyOf: KeyOf<K>, c: Chain, mempool: seq<Bytes>, front: seq<Bytes>,
                                   block: seq<Bytes>)
    requires NoInjectedTags(mempool)
    requires |block| <= |front + Surviving(keyOf, mempool)| && block == (front + Surviving(keyOf, mempool))[..|block|]
    ensures forall i :: |front| <= i < |block| ==> TxAccepted(codec, c, block[i])
  {
    hide Surviving;
    SurvivorsUntagged(keyOf, mempool);
    var kept := Surviving(keyOf, mempool);
    forall i | |front| <= i < |block| ensures TxAccepted(codec, c, block[i]) {
      assert block[i] == kept[i - |front|];
    }
  }

  /** With threshold zero the two sides disagree: the injector does not look at the threshold, the
      checker does, and the proposer's own block is rejected. */
  lemma ThresholdZeroDisagrees(codec: Codec, u: Suite, nonce: Key -> Scalar)
    returns (c: Chain, node: Node)
    requires LawfulCodec(codec) && Lawful(u)
    ensures forall o :: IsPartialInjection(u, c, node, o) ==> o.Some? && !TxAccepted(codec, c, codec.encode(o.value))
  {
    hide HonestItems;
    var k := Key(1, 0);
    var v := Validator("val", Generator, 1);
    var round := VoteRound(Tallying, Confirmed, [v], [], [], Generator, [], 0, [2], false);
    var s := State(round, map[k := Ciphertext(Generator, Generator)], {}, map[], map[], map[]);
    c := Chain(map[[1] := s], [[1]], Some("val"));
    node := Node(true, map[[1] := u.encScalar(1)], true, None, false, nonce);
    assert FirstTallying(c, c.order) == Some([1]);
    assert FindValidator(s.round.validators, "val") == Some(v);
    assert UnmarshalSecretKey(u, u.encScalar(1)) == Ok(1);
    assert PartialCandidate(u, c, node) == Some([1]);
    assert Listed(s, k);
    forall o | IsPartialInjection(u, c, node, o)
      ensures o.Some? && !TxAccepted(codec, c, codec.encode(o.value))
    {
      PartialMessageAccepted(codec, u, c, node, o.value);
    }
  }

  // ----- what becomes of an injected partial decryption

  ghost predicate ProperAccumulators(s: State) {
    forall k :: k in s.accumulators ==> NonIdentity(s.accumulators[k])
  }

  /** No transition creates an accumulator with an identity component. */
  lemma ProperKept(s: State, e: Event)
    requires ProperAccumulators(s)
    ensures ProperAccumulators(Next(s, e))
  {
  }

  /** The chain's reading of an item: its proof is checked against the index's verification key. */
  ghost function Delivered(u: Suite, s: State, index: nat, items: seq<PartialItem>): (es: seq<PartialEntry>)
    requires forall i :: 0 <= i < |items| ==> items[i].key in s.accumulators
    ensures |es| == |items|
  {
    seq(|items|, i requires 0 <= i < |items| =>
      PartialEntry(items[i].key, items[i].di,
                   VerifyDleq(u, items[i].proof, CommitmentAt(s.round.commitments, index),
                     s.accumulators[items[i].key].c1, items[i].di)))
  }

  lemma HonestItemVerifies(u: Suite, s: State, share: Scalar, nonce: Key -> Scalar, index: nat, x: PartialItem)
    requires Lawful(u) && share != 0 && HonestItem(u, s, share, nonce, x) && ProperAccumulators(s)
    requires ShareMatches(Generator, s.round.commitments, index, share)
    ensures VerifyDleq(u, x.proof, CommitmentAt(s.round.commitments, index), s.accumulators[x.key].c1, x.di)
    ensures CorrectPartial(s.round.commitments, s.accumulators[x.key].c1, index, x.di)
  {
    hide VerifyDleq, GenerateDleq, Eval;
    DleqComplete(u, share, s.accumulators[x.key].c1, nonce(x.key));
    GeneratorMul(share);
  }

  /** When the stored share is the one behind the validator's verification key, the chain's handler
      accepts the injected message, stores one partial per accumulator, and every one is correct. */
  lemma InjectedPartialsStored(u: Suite, c: Chain, node: Node, m: Msg)
    requires Lawful(u) && IsPartialInjection(u, c, node, Some(m)) && m.round in c.rounds && m.round in node.shareFiles
    requires Inv(c.rounds[m.round]) && ProperAccumulators(c.rounds[m.round])
    requires UnmarshalSecretKey(u, node.shareFiles[m.round]).Ok?
    requires ShareMatches(Generator, c.rounds[m.round].round.commitments, m.index,
                          UnmarshalSecretKey(u, node.shareFiles[m.round]).value)
    ensures forall i :: 0 <= i < |m.items| ==> m.items[i].key in c.rounds[m.round].accumulators
    ensures var s := c.rounds[m.round];
      var e := SubmitPartials(m.creator, m.index, Delivered(u, s, m.index, m.items));
      ProofsHold(s, e) && m.index in Next(s, e).partials && Inv(Next(s, e))
      && Next(s, e).partials[m.index].Keys == s.accumulators.Keys
  {
    hide IsPartialInjection, HonestItems, HonestItem, ShareMatches, CorrectPartial, VerifyDleq, CommitmentAt, Inv;
    hide Next, PartialsAccepted, ProperAccumulators, Delivered;
    var s := c.rounds[m.round];
    var share := UnmarshalSecretKey(u, node.shareFiles[m.round]).value;
    InjectionFacts(u, c, node, m);
    ItemsAreListed(u, s, share, node.nonce, m.items);
    var es := Delivered(u, s, m.index, m.items);
    DeliveredCorrect(u, s, share, node.nonce, m.index, m.items);
    DeliveredAccepted(s, m.creator, m.index, m.items, es);
    var e := SubmitPartials(m.creator, m.index, es);
    AcceptedIsStored(s, m.creator, m.index, es);
    NextKeepsInv(s, e);
  }

  lemma InjectionFacts(u: Suite, c: Chain, node: Node, m: Msg)
    requires IsPartialInjection(u, c, node, Some(m)) && m.round in c.rounds && m.round in node.shareFiles
    requires UnmarshalSecretKey(u, node.shareFiles[m.round]).Ok?
    ensures var s := c.rounds[m.round]; var v := FindValidator(s.round.validators, m.creator);
      && m.PartialMsg? && s.round.status.Tallying? && HasListed(s)
      && v.Some? && v.value.shamirIndex == m.index && m.index !in s.partials
      && HonestItems(u, s, UnmarshalSecretKey(u, node.shareFiles[m.round]).value, node.nonce, m.items)
      && UnmarshalSecretKey(u, node.shareFiles[m.round]).value != 0
  {
    hide HonestItems, FindValidator;
  }

  /** Every delivered entry carries an accepted proof and is correct. */
  lemma DeliveredCorrect(u: Suite, s: State, share: Scalar, nonce: Key -> Scalar, index: nat, items: seq<PartialItem>)
    requires Lawful(u) && share != 0 && HonestItems(u, s, share, nonce, items) && ProperAccumulators(s)
    requires ShareMatches(Generator, s.round.commitments, index, share)
    requires forall i :: 0 <= i < |items| ==> items[i].key in s.accumulators
    ensures var es := Delivered(u, s, index, items);
      forall i :: 0 <= i < |es| ==>
        && es[i].key == items[i].key && es[i].proofAccepted
        && CorrectPartial(s.round.commitments, s.accumulators[es[i].key].c1, index, es[i].di)
  {
    hide HonestItem, ShareMatches, CorrectPartial, VerifyDleq, CommitmentAt;
    forall i | 0 <= i < |items|
      ensures var x := items[i];
        && VerifyDleq(u, x.proof, CommitmentAt(s.round.commitments, index), s.accumulators[x.key].c1, x.di)
        && CorrectPartial(s.round.commitments, s.accumulators[x.key].c1, index, x.di)
    {
      HonestItemVerifies(u, s, share, nonce, index, items[i]);
    }
  }

  lemma AcceptedIsStored(s: State, creator: Address, index: nat, es: seq<PartialEntry>)
    requires Inv(s) && PartialsAccepted(s, creator, index, es)
    requires forall i :: 0 <= i < |es| ==>
      && es[i].key in s.accumulators
      && CorrectPartial(s.round.commitments, s.accumulators[es[i].key].c1, index, es[i].di)
    ensures var e := SubmitPartials(creator, index, es);
      && ProofsHold(s, e) && index in Next(s, e).partials
      && Next(s, e).partials[index].Keys == s.accumulators.Keys
  {
    hide CorrectPartial, Encrypts, PartialsAccepted;
    SubmittedMap(s, creator, index, es);
  }

  lemma DeliveredAccepted(s: State, creator: Address, index: nat, items: seq<PartialItem>, es: seq<PartialEntry>)
    requires Inv(s) && s.round.status.Tallying? && FindValidator(s.round.validators, creator).Some?
    requires FindValidator(s.round.validators, creator).value.shamirIndex == index && index !in s.partials
    requires items != [] && |es| == |items| && CoversAll(s, ItemKeys(items))
    requires forall i :: 0 <= i < |es| ==>
      es[i].key == items[i].key && es[i].key in s.accumulators && es[i].proofAccepted
    ensures PartialsAccepted(s, creator, index, es)
  {
    hide Encrypts, CorrectPartial;
    assert PartialKeys(es) == ItemKeys(items) by {
      forall k | k in PartialKeys(es) ensures k in ItemKeys(items) {
        var i :| 0 <= i < |es| && es[i].key == k;
        assert items[i].key == k;
      }
      forall k | k in ItemKeys(items) ensures k in PartialKeys(es) {
        var i :| 0 <= i < |items| && items[i].key == k;
        assert es[i].key == k;
      }
    }
    FindValidatorFinds(s.round.validators, creator);
  }
}
