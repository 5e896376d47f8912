/** How a proposer builds a block (app/prepare_proposal.go and its injectors): it filters the mempool,
    prepends up to four messages of its own and trims to the byte budget. */
module ProposalBuild {
  import opened Field
  import opened Group
  import opened Shamir
  import opened ElGamal
  import opened Bsgs
  import opened ByteStrings
  import opened Ecies
  import opened Sigma
  import opened Round
  import opened Ceremony
  import opened Tally
  import opened ShareFilter
  import opened ProposalCheck

  /** The proposer's own machine: its ceremony directory, its share files, whether its Pallas key
      loads, the contribution it manages to deal, whether it recovers its share when asked to
      acknowledge, and the nonces it draws. */
  datatype Node = Node(
    ceremonyDir: bool,
    shareFiles: map<Bytes, Bytes>,
    keyLoads: bool,
    contribution: Option<WireContribution>,
    recoversShare: bool,
    nonce: Key -> Scalar)

  // ----- lookups over the stored rounds

  /** The first listed id with the property, or None when no listed id has it. */
  ghost predicate IsFirst(order: seq<Bytes>, has: Bytes -> bool, id: Option<Bytes>) {
    match id
    case None => forall i :: 0 <= i < |order| ==> !has(order[i])
    case Some(x) => exists i :: FoundAt(order, has, x, i)
  }

  ghost predicate FoundAt(order: seq<Bytes>, has: Bytes -> bool, x: Bytes, i: int) {
    0 <= i < |order| && order[i] == x && has(x) && forall j :: 0 <= j < i ==> !has(order[j])
  }

  lemma FirstHere(order: seq<Bytes>, has: Bytes -> bool)
    requires order != [] && has(order[0])
    ensures IsFirst(order, has, Some(order[0]))
  {
    assert FoundAt(order, has, order[0], 0);
  }

  lemma FirstAfter(order: seq<Bytes>, has: Bytes -> bool, id: Option<Bytes>)
    requires order != [] && !has(order[0]) && IsFirst(order[1..], has, id)
    ensures IsFirst(order, has, id)
  {
    assert forall j :: 1 <= j < |order| ==> order[j] == order[1..][j - 1];
    if id.Some? {
      var i :| FoundAt(order[1..], has, id.value, i);
      assert FoundAt(order, has, id.value, i + 1);
    }
  }

  predicate PendingWith(s: State, ceremony: Round.Ceremony) {
    s.round.status.Pending? && s.round.ceremony == ceremony
  }

  function FirstPending(c: Chain, order: seq<Bytes>, ceremony: Round.Ceremony): (id: Option<Bytes>)
    ensures IsFirst(order, x => x in c.rounds && PendingWith(c.rounds[x], ceremony), id)
  {
    if order == [] then None
    else if order[0] in c.rounds && PendingWith(c.rounds[order[0]], ceremony) then
      FirstHere(order, x => x in c.rounds && PendingWith(c.rounds[x], ceremony));
      Some(order[0])
    else
      var later := FirstPending(c, order[1..], ceremony);
      FirstAfter(order, x => x in c.rounds && PendingWith(c.rounds[x], ceremony), later);
      later
  }

  function FirstTallying(c: Chain, order: seq<Bytes>): (id: Option<Bytes>)
    ensures IsFirst(order, x => x in c.rounds && c.rounds[x].round.status.Tallying?, id)
  {
    if order == [] then None
    else if order[0] in c.rounds && c.rounds[order[0]].round.status.Tallying? then
      FirstHere(order, x => x in c.rounds && c.rounds[x].round.status.Tallying?);
      Some(order[0])
    else
      var later := FirstTallying(c, order[1..]);
      FirstAfter(order, x => x in c.rounds && c.rounds[x].round.status.Tallying?, later);
      later
  }

  // ----- the ceremony injectors

  function DkgInjection(c: Chain, node: Node): Option<Msg> {
    if !node.keyLoads || c.proposer.None? then None
    else match FirstPending(c, c.order, Registering)
      case None => None
      case Some(id) =>
        var r, me := c.rounds[id].round, c.proposer.value;
        if FindValidator(r.validators, me).None? || HasContributed(r.contributions, me)
           || node.contribution.None? then None
        else Some(DkgMsg(id, me, node.contribution.value))
  }

  function AckInjection(c: Chain, node: Node): Option<Msg> {
    if !node.keyLoads || c.proposer.None? then None
    else match FirstPending(c, c.order, Dealt)
      case None => None
      case Some(id) =>
        var r, me := c.rounds[id].round, c.proposer.value;
        var v := FindValidator(r.validators, me);
        if me in r.acks || v.None? || v.value.shamirIndex == 0 || !node.recoversShare then None
        else Some(AckMsg(id, me))
  }

  // ----- partial decryptions

  /** The proposer belongs to the round's set, has not submitted, and has a readable share. */
  ghost predicate DueAndAble(u: Suite, c: Chain, node: Node, id: Bytes) {
    && id in c.rounds && c.proposer.Some? && node.ceremonyDir
    && id in node.shareFiles && UnmarshalSecretKey(u, node.shareFiles[id]).Ok?
    && var s := c.rounds[id]; var v := FindValidator(s.round.validators, c.proposer.value);
    && v.Some? && v.value.shamirIndex !in s.partials
  }

  /** The round to decrypt for: the first tallying one, when this proposer has to and can. */
  function PartialCandidate(u: Suite, c: Chain, node: Node): (id: Option<Bytes>)
    ensures forall x :: id == Some(x) <==> FirstTallying(c, c.order) == Some(x) && DueAndAble(u, c, node, x)
  {
    if !node.ceremonyDir || c.proposer.None? then None
    else match FirstTallying(c, c.order)
      case None => None
      case Some(id) =>
        var s := c.rounds[id];
        var v := FindValidator(s.round.validators, c.proposer.value);
        if v.None? || v.value.shamirIndex in s.partials then None
        else if id !in node.shareFiles || UnmarshalSecretKey(u, node.shareFiles[id]).Err? then None
        else Some(id)
  }

  ghost predicate HonestItem(u: Suite, s: State, share: Scalar, nonce: Key -> Scalar, x: PartialItem) {
    && Listed(s, x.key) && x.di == PartialDecrypt(share, s.accumulators[x.key].c1)
    && GenerateDleq(u, share, s.accumulators[x.key].c1, nonce(x.key)) == Ok(x.proof)
  }

  /** One item for each listed accumulator. */
  ghost predicate HonestItems(u: Suite, s: State, share: Scalar, nonce: Key -> Scalar, items: seq<PartialItem>) {
    && (forall i :: 0 <= i < |items| ==> HonestItem(u, s, share, nonce, items[i]))
    && (forall i, j :: 0 <= i < j < |items| ==> items[i].key != items[j].key)
    && forall k :: Listed(s, k) ==> k in ItemKeys(items)
  }

  /** The accumulators up to proposal p are done, apart from those still to visit. */
  ghost predicate Visited(s: State, items: seq<PartialItem>, p: nat, todo: set<Key>) {
    && (forall i :: 0 <= i < |items| ==> items[i].key !in todo && items[i].key.proposal <= p)
    && (forall i, j :: 0 <= i < j < |items| ==> items[i].key != items[j].key)
    && (forall k :: k in todo ==> Listed(s, k) && k.proposal == p)
    && forall k :: Listed(s, k) && k.proposal <= p ==> k in todo || k in ItemKeys(items)
  }

  lemma VisitOne(s: State, items: seq<PartialItem>, p: nat, todo: set<Key>, x: PartialItem)
    requires Visited(s, items, p, todo) && x.key in todo
    ensures Visited(s, items + [x], p, todo - {x.key})
  {
    var xs := items + [x];
    assert forall i :: 0 <= i < |items| ==> xs[i] == items[i];
    forall k | Listed(s, k) && k.proposal <= p ensures k in todo - {x.key} || k in ItemKeys(xs) {
      if k in ItemKeys(items) {
        var i :| 0 <= i < |items| && items[i].key == k;
        assert xs[i].key == k;
      } else if k == x.key {
        assert xs[|items|].key == k;
      }
    }
  }

  /** Visits the proposals in order and each proposal's decisions in any order. */
  method PartialItems(u: Suite, s: State, share: Scalar, nonce: Key -> Scalar) returns (items: seq<PartialItem>)
    requires share != 0
    ensures HonestItems(u, s, share, nonce, items)
  {
    hide HonestItem;
    items := [];
    for p := 0 to |s.round.options|
      invariant Visited(s, items, p, {})
      invariant forall i :: 0 <= i < |items| ==> HonestItem(u, s, share, nonce, items[i])
    {
      var todo := set k | k in s.accumulators && k.proposal == p + 1;
      while todo != {}
        invariant Visited(s, items, p + 1, todo)
        invariant forall i :: 0 <= i < |items| ==> HonestItem(u, s, share, nonce, items[i])
        decreases todo
      {
        var k :| k in todo;
        var x := MakeItem(u, s, share, nonce, k);
        VisitOne(s, items, p + 1, todo, x);
        items := items + [x];
        todo := todo - {k};
      }
    }
  }

  method MakeItem(u: Suite, s: State, share: Scalar, nonce: Key -> Scalar, k: Key) returns (x: PartialItem)
    requires share != 0 && Listed(s, k)
    ensures x.key == k && HonestItem(u, s, share, nonce, x)
  {
    var c1 := s.accumulators[k].c1;
    x := PartialItem(k, PartialDecrypt(share, c1), GenerateDleq(u, share, c1, nonce(k)).value);
  }

  ghost predicate HasListed(s: State) {
    exists k :: Listed(s, k)
  }

  /** What the injector may inject; the order of a proposal's decisions is free. */
  ghost predicate IsPartialInjection(u: Suite, c: Chain, node: Node, o: Option<Msg>) {
    match PartialCandidate(u, c, node)
    case None => o.None?
    case Some(id) =>
      var s, me := c.rounds[id], c.proposer.value;
      var share := UnmarshalSecretKey(u, node.shareFiles[id]).value;
      && (o.Some? <==> HasListed(s))
      && (o.Some? ==>
        && o.value.PartialMsg? && o.value.round == id && o.value.creator == me
        && o.value.index == FindValidator(s.round.validators, me).value.shamirIndex
        && HonestItems(u, s, share, node.nonce, o.value.items))
  }

  method InjectPartials(u: Suite, c: Chain, node: Node) returns (o: Option<Msg>)
    ensures IsPartialInjection(u, c, node, o)
  {
    var candidate := PartialCandidate(u, c, node);
    if candidate.None? {
      return None;
    }
    var id := candidate.value;
    var s, me := c.rounds[id], c.proposer.value;
    var items := PartialItems(u, s, UnmarshalSecretKey(u, node.shareFiles[id]).value, node.nonce);
    if |items| == 0 {
      return None;
    }
    assert Listed(s, items[0].key);
    return Some(PartialMsg(id, me, FindValidator(s.round.validators, me).value.shamirIndex, items));
  }

  // ----- tallies

  /** The tally injector waits for the threshold unless nothing was cast. */
  ghost predicate IsTallyInjection(table: BSGSTable, c: Chain, node: Node, o: Option<Msg>) {
    if !node.ceremonyDir || c.proposer.None? || FirstTallying(c, c.order).None? then o.None?
    else
      var id := FirstTallying(c, c.order).value;
      var s := c.rounds[id];
      && (o.Some? <==> (HasListed(s) ==>
        |s.partials| >= s.round.threshold && forall k :: Listed(s, k) ==> DecryptKey(s, table, k).Ok?))
      && (o.Some? ==> o.value.TallyMsg? && o.value.round == id && o.value.creator == c.proposer.value
                      && IsTally(s, table, o.value.entries))
  }

  method RoundHasAccumulators(s: State) returns (has: bool)
    ensures has <==> HasListed(s)
  {
    for p := 0 to |s.round.options|
      invariant forall k :: Listed(s, k) ==> k.proposal > p
    {
      var tally := set k | k in s.accumulators && k.proposal == p + 1;
      if tally != {} {
        var k :| k in tally;
        assert Listed(s, k);
        return true;
      }
      assert forall k :: Listed(s, k) ==> k !in tally;
    }
    return false;
  }

  method InjectTally(table: BSGSTable, c: Chain, node: Node) returns (o: Option<Msg>)
    ensures IsTallyInjection(table, c, node, o)
  {
    hide DecryptKey;
    if !node.ceremonyDir || c.proposer.None? || FirstTallying(c, c.order).None? {
      return None;
    }
    var id := FirstTallying(c, c.order).value;
    var s := c.rounds[id];
    var entries: seq<TallyEntry> := [];
    var has := RoundHasAccumulators(s);
    if has {
      if |s.partials| < s.round.threshold {
        return None;
      }
      var decrypted := DecryptRoundTallies(s, table);
      if decrypted.Err? {
        return None;
      }
      entries := decrypted.value;
    }
    return Some(TallyMsg(id, c.proposer.value, entries));
  }

  // ----- the whole builder

  function Opt(o: Option<Msg>): seq<Msg> {
    if o.Some? then [o.value] else []
  }

  function Encoded(codec: Codec, ms: seq<Msg>): (txs: seq<Bytes>)
    ensures |txs| == |ms|
  {
    seq(|ms|, i requires 0 <= i < |ms| => codec.encode(ms[i]))
  }

  /** The injected messages in block order: the last injector's comes first. */
  function Injected(c: Chain, node: Node, partial: Option<Msg>, tally: Option<Msg>): seq<Msg> {
    Opt(tally) + (Opt(partial) + (Opt(AckInjection(c, node)) + Opt(DkgInjection(c, node))))
  }

  /** The block is the longest affordable prefix of the injected messages and the surviving mempool. */
  ghost predicate IsProposal<K(!new)>(codec: Codec, keyOf: KeyOf<K>, size: Bytes -> nat, u: Suite, table: BSGSTable,
                                      c: Chain, node: Node, mempool: seq<Bytes>, maxTxBytes: int,
                                      partial: Option<Msg>, tally: Option<Msg>, block: seq<Bytes>)
  {
    var all := Encoded(codec, Injected(c, node, partial, tally)) + Surviving(keyOf, mempool);
    && IsPartialInjection(u, c, node, partial) && IsTallyInjection(table, c, node, tally)
    && |block| <= |all| && block == all[..|block|]
    && if maxTxBytes < 0 then block == all
       else forall n: nat :: n <= |all| ==> (n <= |block| <==> TotalSize(size, all[..n]) <= maxTxBytes)
  }

  function Prepend(codec: Codec, o: Option<Msg>, txs: seq<Bytes>): (r: seq<Bytes>)
    ensures r == Encoded(codec, Opt(o)) + txs
  {
    if o.Some? then [codec.encode(o.value)] + txs else txs
  }

  lemma EncodedJoin(codec: Codec, a: seq<Msg>, b: seq<Msg>)
    ensures Encoded(codec, a + b) == Encoded(codec, a) + Encoded(codec, b)
  {
  }

  method BuildProposal<K(!new, ==)>(codec: Codec, keyOf: KeyOf<K>, size: Bytes -> nat, u: Suite, table: BSGSTable,
                                    c: Chain, node: Node, mempool: seq<Bytes>, maxTxBytes: int)
    returns (block: seq<Bytes>, partial: Option<Msg>, tally: Option<Msg>)
    ensures IsProposal(codec, keyOf, size, u, table, c, node, mempool, maxTxBytes, partial, tally, block)
  {
    hide Surviving, IsPartialInjection, IsTallyInjection, TotalSize, Encoded, AckInjection, DkgInjection, Opt;
    var txs, stats := FilterSubmissions(keyOf, mempool);
    ghost var kept := txs;
    var dkg, ack := DkgInjection(c, node), AckInjection(c, node);
    txs := Prepend(codec, dkg, txs);
    txs := Prepend(codec, ack, txs);
    partial := InjectPartials(u, c, node);
    txs := Prepend(codec, partial, txs);
    tally := InjectTally(table, c, node);
    txs := Prepend(codec, tally, txs);
    JoinAll(codec, Opt(tally), Opt(partial), Opt(ack), Opt(dkg), kept);
    var dropped;
    block, dropped := TrimToMaxBytes(size, txs, maxTxBytes);
  }

  lemma JoinAll(codec: Codec, a: seq<Msg>, b: seq<Msg>, c: seq<Msg>, d: seq<Msg>, txs: seq<Bytes>)
    ensures Encoded(codec, a) + (Encoded(codec, b) + (Encoded(codec, c) + (Encoded(codec, d) + txs)))
         == Encoded(codec, a + (b + (c + d))) + txs
  {
    hide Encoded;
    EncodedJoin(codec, a, b + (c + d));
    EncodedJoin(codec, b, c + d);
    EncodedJoin(codec, c, d);
  }
}
