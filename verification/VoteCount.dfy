/** Which votes of a run count, read off the run's own messages, and the theorem that a finalized round
    publishes exactly their sums. */
module VoteCount {
  import opened Field
  import opened Group
  import opened Feldman
  import opened ElGamal
  import opened Round
  import opened Lifecycle
  import opened StepLaws

  /** The state before message n. */
  ghost function StateAt(s: State, trace: seq<Event>, n: nat): State
    requires n <= |trace|
  {
    if n == 0 then s else Next(StateAt(s, trace, n - 1), trace[n - 1])
  }

  /** Message i is a reveal that counts: it arrives while the round is active, for an option that exists,
      with a nullifier no earlier counted reveal carried, and no identity component appears in it or in
      the sum of the shares counted for its option. */
  ghost predicate Counts(s: State, trace: seq<Event>, i: nat)
    requires i < |trace|
    decreases i, 1
  {
    && trace[i].Reveal? && StateAt(s, trace, i).round.status.Active?
    && (var k := trace[i].key; var options := s.round.options;
        1 <= k.proposal <= |options| && 2 <= options[k.proposal - 1] <= 8 && k.decision < options[k.proposal - 1])
    && trace[i].nullifier !in s.nullifiers && !Used(s, trace, i, trace[i].nullifier)
    && trace[i].share.c1 != Identity && trace[i].share.c2 != Identity
    && PAdd(ShareSum(s, trace, i, trace[i].key).c1, trace[i].share.c1) != Identity
    && PAdd(ShareSum(s, trace, i, trace[i].key).c2, trace[i].share.c2) != Identity
  }

  /** One of the first n messages is a counted reveal with this nullifier. */
  ghost predicate Used(s: State, trace: seq<Event>, n: nat, nullifier: string)
    requires n <= |trace|
    decreases n, 0
  {
    n > 0 && (Used(s, trace, n - 1, nullifier) || (Counts(s, trace, n - 1) && trace[n - 1].nullifier == nullifier))
  }

  /** The sum of the shares counted for an option among the first n messages. */
  ghost function ShareSum(s: State, trace: seq<Event>, n: nat, k: Key): Ciphertext
    requires n <= |trace|
    decreases n, 0
  {
    if n == 0 then Ciphertext(Identity, Identity)
    else
      var sum := ShareSum(s, trace, n - 1, k);
      if Counts(s, trace, n - 1) && trace[n - 1].key == k then
        Ciphertext(PAdd(sum.c1, trace[n - 1].share.c1), PAdd(sum.c2, trace[n - 1].share.c2))
      else sum
  }

  /** The values counted for an option among the first n messages, in order. */
  ghost function CountedValues(s: State, trace: seq<Event>, n: nat, k: Key): seq<nat>
    requires n <= |trace|
  {
    if n == 0 then []
    else
      CountedValues(s, trace, n - 1, k)
      + if Counts(s, trace, n - 1) && trace[n - 1].key == k then [trace[n - 1].value] else []
  }

  // ----- the state records exactly that

  ghost predicate Records(s: State, trace: seq<Event>, n: nat, now: State)
    requires n <= |trace|
  {
    && now.round.options == s.round.options
    && (forall x :: x in now.nullifiers <==> x in s.nullifiers || Used(s, trace, n, x))
    && now.accumulators.Keys == now.cast.Keys
    && forall k :: RecordsOption(s, trace, n, now, k)
  }

  ghost predicate RecordsOption(s: State, trace: seq<Event>, n: nat, now: State, k: Key)
    requires n <= |trace|
  {
    && CountedValues(s, trace, n, k) == (if k in now.cast then now.cast[k] else [])
    && (k in now.cast ==> now.cast[k] != [])
    && ShareSum(s, trace, n, k) ==
      if k in now.accumulators then now.accumulators[k] else Ciphertext(Identity, Identity)
  }

  lemma AddIdentity(p: Point)
    ensures PAdd(Identity, p) == p
  {
    ReduceScalar(p.log);
  }

  /** Only reveals touch votes, and no message touches the options. */
  lemma OtherMessages(s: State, e: Event)
    ensures var s' := Next(s, e);
      && s'.round.options == s.round.options
      && (!e.Reveal? ==> s'.accumulators == s.accumulators && s'.nullifiers == s.nullifiers && s'.cast == s.cast)
  {
    hide InBounds, FindValidator, PayloadsCover, CombinedVector, CommitmentAt, SameLength, EntryMap, ResultMap;
    hide PartialsAccepted, TallyAccepted, AddToTally, StripNonAckers, ThresholdForN;
    StripKeepsOptions(s.round);
  }

  lemma StripKeepsOptions(r: VoteRound)
    ensures StripNonAckers(r).options == r.options
  {
  }

  lemma CountsIsRevealCounts(s: State, trace: seq<Event>, n: nat)
    requires n < |trace| && trace[n].Reveal? && Records(s, trace, n, StateAt(s, trace, n))
    ensures Counts(s, trace, n)
        <==> RevealCounts(StateAt(s, trace, n), trace[n].key, trace[n].share, trace[n].nullifier)
  {
    hide PAdd, StateAt;
    AddIdentity(trace[n].share.c1);
    AddIdentity(trace[n].share.c2);
    assert RecordsOption(s, trace, n, StateAt(s, trace, n), trace[n].key);
  }

  lemma {:induction false} StateRecords(s: State, trace: seq<Event>, n: nat)
    requires n <= |trace| && s.accumulators == map[] && s.cast == map[]
    ensures Records(s, trace, n, StateAt(s, trace, n))
  {
    if n > 0 {
      StateRecords(s, trace, n - 1);
      var now := StateAt(s, trace, n - 1);
      if trace[n - 1].Reveal? {
        RecordsReveal(s, trace, n);
      } else {
        RecordsOther(s, trace, n);
      }
    }
  }

  lemma RecordsOther(s: State, trace: seq<Event>, n: nat)
    requires 0 < n <= |trace| && !trace[n - 1].Reveal? && Records(s, trace, n - 1, StateAt(s, trace, n - 1))
    ensures Records(s, trace, n, StateAt(s, trace, n))
  {
    hide Next, PAdd;
    OtherMessages(StateAt(s, trace, n - 1), trace[n - 1]);
    RecordsSame(s, trace, n, StateAt(s, trace, n - 1), StateAt(s, trace, n));
  }

  /** A message that does not count leaves the record as it is. */
  lemma RecordsSame(s: State, trace: seq<Event>, n: nat, now: State, later: State)
    requires 0 < n <= |trace| && !Counts(s, trace, n - 1) && Records(s, trace, n - 1, now)
    requires later.round.options == now.round.options && later.nullifiers == now.nullifiers
    requires later.accumulators == now.accumulators && later.cast == now.cast
    ensures Records(s, trace, n, later)
  {
    hide Counts, RecordsOption;
    forall k ensures RecordsOption(s, trace, n, later, k) {
      assert RecordsOption(s, trace, n - 1, now, k);
      OptionSame(s, trace, n, now, later, k);
    }
  }

  lemma OptionSame(s: State, trace: seq<Event>, n: nat, now: State, later: State, k: Key)
    requires 0 < n <= |trace| && RecordsOption(s, trace, n - 1, now, k)
    requires !(Counts(s, trace, n - 1) && trace[n - 1].Reveal? && trace[n - 1].key == k)
    requires later.accumulators.Keys == later.cast.Keys && now.accumulators.Keys == now.cast.Keys
    requires k in later.cast <==> k in now.cast
    requires k in now.cast ==> later.cast[k] == now.cast[k] && later.accumulators[k] == now.accumulators[k]
    ensures RecordsOption(s, trace, n, later, k)
  {
    CountsReveal(s, trace, n - 1);
    hide Counts;
    assert CountedValues(s, trace, n - 1, k) + [] == CountedValues(s, trace, n - 1, k);
  }

  lemma CountsReveal(s: State, trace: seq<Event>, i: nat)
    requires i < |trace|
    ensures Counts(s, trace, i) ==> trace[i].Reveal?
  {
  }

  lemma RecordsReveal(s: State, trace: seq<Event>, n: nat)
    requires 0 < n <= |trace| && trace[n - 1].Reveal? && Records(s, trace, n - 1, StateAt(s, trace, n - 1))
    ensures Records(s, trace, n, StateAt(s, trace, n))
  {
    var e, now := trace[n - 1], StateAt(s, trace, n - 1);
    CountsIsRevealCounts(s, trace, n - 1);
    RevealExact(now, e.key, e.share, e.nullifier, e.value, e.randomness);
    hide Next, Counts, RevealCounts, PAdd, Records;
    if Counts(s, trace, n - 1) {
      AddIdentity(e.share.c1);
      AddIdentity(e.share.c2);
      RecordsCounted(s, trace, n, now, StateAt(s, trace, n));
    } else {
      RecordsSame(s, trace, n, now, StateAt(s, trace, n));
    }
  }

  lemma RecordsCounted(s: State, trace: seq<Event>, n: nat, now: State, later: State)
    requires 0 < n <= |trace| && trace[n - 1].Reveal? && Counts(s, trace, n - 1) && Records(s, trace, n - 1, now)
    requires PAdd(Identity, trace[n - 1].share.c1) == trace[n - 1].share.c1
    requires PAdd(Identity, trace[n - 1].share.c2) == trace[n - 1].share.c2
    requires var e, acc := trace[n - 1], now.accumulators;
      var sum := if e.key in acc then Ciphertext(PAdd(acc[e.key].c1, e.share.c1), PAdd(acc[e.key].c2, e.share.c2))
                 else e.share;
      later == now.(accumulators := acc[e.key := sum], nullifiers := now.nullifiers + {e.nullifier},
        cast := now.cast[e.key := (if e.key in now.cast then now.cast[e.key] else []) + [e.value]])
    ensures Records(s, trace, n, later)
  {
    hide Counts, PAdd, RecordsOption;
    var e := trace[n - 1];
    forall k ensures RecordsOption(s, trace, n, later, k) {
      assert RecordsOption(s, trace, n - 1, now, k);
      if k == e.key {
        OptionCounted(s, trace, n, now, later);
      } else {
        OptionSame(s, trace, n, now, later, k);
      }
    }
  }

  lemma OptionCounted(s: State, trace: seq<Event>, n: nat, now: State, later: State)
    requires 0 < n <= |trace| && trace[n - 1].Reveal? && Counts(s, trace, n - 1)
    requires RecordsOption(s, trace, n - 1, now, trace[n - 1].key) && now.accumulators.Keys == now.cast.Keys
    requires PAdd(Identity, trace[n - 1].share.c1) == trace[n - 1].share.c1
    requires PAdd(Identity, trace[n - 1].share.c2) == trace[n - 1].share.c2
    requires var e, acc := trace[n - 1], now.accumulators;
      && e.key in later.accumulators && e.key in later.cast
      && later.cast[e.key] == (if e.key in now.cast then now.cast[e.key] else []) + [e.value]
      && later.accumulators[e.key] ==
        if e.key in acc then Ciphertext(PAdd(acc[e.key].c1, e.share.c1), PAdd(acc[e.key].c2, e.share.c2))
        else e.share
    ensures RecordsOption(s, trace, n, later, trace[n - 1].key)
  {
    hide Counts, PAdd;
  }

  // ----- over whole runs

  lemma {:induction false} StateAtTail(s: State, trace: seq<Event>, n: nat)
    requires 0 < n <= |trace|
    ensures StateAt(s, trace, n) == StateAt(Next(s, trace[0]), trace[1..], n - 1)
  {
    hide Next;
    if n > 1 {
      StateAtTail(s, trace, n - 1);
      assert trace[1..][n - 2] == trace[n - 1];
    }
  }

  lemma {:induction false} RunEndsAt(s: State, trace: seq<Event>, s': State)
    requires Run(s, trace, s')
    ensures StateAt(s, trace, |trace|) == s'
    decreases |trace|
  {
    hide Next, ProofsHold;
    if trace != [] {
      RunEndsAt(Next(s, trace[0]), trace[1..], s');
      StateAtTail(s, trace, |trace|);
    }
  }

  /** Safety and completeness of the count over whole runs: whatever the order of messages and timeouts,
      and whichever validators contributed, acknowledged and answered, a round that finalizes without
      timing out publishes for every option the sum of the values of exactly the reveals that count in
      the run (sums below the group order), and zero for any other option it lists. */
  lemma PublishedTotalsCountEveryVote(s: State, trace: seq<Event>, s': State)
    requires Initial(s) && Run(s, trace, s')
    requires s'.round.status.Finalized? && !s'.round.timedOut && Q > TALLY_BOUND
    ensures forall k :: var counted := CountedValues(s, trace, |trace|, k);
      && (counted != [] && Sum(counted) < Q ==> k in s'.results && s'.results[k] == Sum(counted))
      && (counted == [] && k in s'.results ==> s'.results[k] == 0)
  {
    hide Run, Sum, CountedValues, ShareSum, Used;
    RunEndsAt(s, trace, s');
    StateRecords(s, trace, |trace|);
    FinalizedTotalsAreVoteSums(s, trace, s');
    forall k ensures CountedValues(s, trace, |trace|, k) == (if k in s'.cast then s'.cast[k] else [])
      && (k in s'.cast ==> s'.cast[k] != [])
    {
      assert RecordsOption(s, trace, |trace|, s', k);
    }
  }
}
