/** The proposer's side of the tally: decrypting every accumulator of a round
    (app/prepare_proposal.go), and its agreement with the chain's verification. */
module Tally {
  import opened Field
  import opened Group
  import opened Shamir
  import opened ElGamal
  import opened Bsgs
  import opened Round
  import opened Lifecycle

  /** What one accumulator decrypts to. */
  ghost function DecryptKey(s: State, table: BSGSTable, k: Key): Result<nat>
    requires k in s.accumulators
  {
    var ps := PartialsFor(s, k);
    if !Combinable(ps, s.round.threshold) then Err
    else Search(table, PSub(s.accumulators[k].c2, Combined(ps)), 0)
  }

  method DecryptOne(s: State, table: BSGSTable, k: Key) returns (r: Result<nat>)
    requires k in s.accumulators
    ensures r == DecryptKey(s, table, k)
  {
    var stored := PartialsFor(s, k);
    if |stored| == 0 {
      return Err;
    }
    var skC1 := CombinePartials(stored, s.round.threshold);
    if skC1.Err? {
      return Err;
    }
    r := Solve(table, PSub(s.accumulators[k].c2, skC1.value));
  }

  predicate Listed(s: State, k: Key) {
    k in s.accumulators && 1 <= k.proposal <= |s.round.options|
  }

  /** One entry for each listed accumulator, carrying what it decrypts to. */
  ghost predicate IsTally(s: State, table: BSGSTable, entries: seq<TallyEntry>) {
    && (forall i :: 0 <= i < |entries| ==>
      Listed(s, entries[i].key) && DecryptKey(s, table, entries[i].key) == Ok(entries[i].total))
    && (forall i, j :: 0 <= i < j < |entries| ==> entries[i].key != entries[j].key)
    && forall k :: Listed(s, k) ==> k in TallyKeys(entries)
  }

  /** The accumulators not yet decrypted are those still to visit in this proposal, then later ones. */
  ghost predicate Progress(s: State, table: BSGSTable, entries: seq<TallyEntry>, p: nat, todo: set<Key>) {
    && (forall i :: 0 <= i < |entries| ==>
      && Listed(s, entries[i].key) && entries[i].key !in todo && entries[i].key.proposal <= p
      && DecryptKey(s, table, entries[i].key) == Ok(entries[i].total))
    && (forall i, j :: 0 <= i < j < |entries| ==> entries[i].key != entries[j].key)
    && (forall k :: k in todo ==> Listed(s, k) && k.proposal == p)
    && forall k :: Listed(s, k) && k.proposal <= p ==> k in todo || k in TallyKeys(entries)
  }

  lemma ProgressStep(s: State, table: BSGSTable, entries: seq<TallyEntry>, p: nat, todo: set<Key>, e: TallyEntry)
    requires Progress(s, table, entries, p, todo) && e.key in todo
    requires DecryptKey(s, table, e.key) == Ok(e.total)
    ensures Progress(s, table, entries + [e], p, todo - {e.key})
  {
    hide DecryptKey;
    var es := entries + [e];
    assert forall i :: 0 <= i < |entries| ==> es[i] == entries[i];
    forall k | Listed(s, k) && k.proposal <= p ensures k in todo - {e.key} || k in TallyKeys(es) {
      if k in TallyKeys(entries) {
        var i :| 0 <= i < |entries| && entries[i].key == k;
        assert es[i].key == k;
      } else if k == e.key {
        assert es[|entries|].key == k;
      }
    }
  }

  /** Visits the proposals in order and each proposal's decisions in any order. Succeeds exactly when
      every accumulator decrypts; the entries are then the same set whatever order was taken. */
  method DecryptRoundTallies(s: State, table: BSGSTable) returns (r: Result<seq<TallyEntry>>)
    ensures r.Ok? <==> forall k :: Listed(s, k) ==> DecryptKey(s, table, k).Ok?
    ensures r.Ok? ==> IsTally(s, table, r.value)
  {
    hide Progress, DecryptKey;
    var entries: seq<TallyEntry> := [];
    NothingDone(s, table);
    for p := 0 to |s.round.options|
      invariant Progress(s, table, entries, p, {})
    {
      var todo := set k | k in s.accumulators && k.proposal == p + 1;
      NextProposal(s, table, entries, p, todo);
      while todo != {}
        invariant Progress(s, table, entries, p + 1, todo)
        invariant forall k :: k in todo ==> Listed(s, k)
        decreases todo
      {
        var k :| k in todo;
        var total := DecryptOne(s, table, k);
        if total.Err? {
          return Err;
        }
        ProgressStep(s, table, entries, p + 1, todo, TallyEntry(k, total.value));
        entries := entries + [TallyEntry(k, total.value)];
        todo := todo - {k};
      }
    }
    AllDone(s, table, entries);
    return Ok(entries);
  }

  lemma NothingDone(s: State, table: BSGSTable)
    ensures Progress(s, table, [], 0, {})
  {
  }

  lemma NextProposal(s: State, table: BSGSTable, entries: seq<TallyEntry>, p: nat, todo: set<Key>)
    requires Progress(s, table, entries, p, {}) && p < |s.round.options|
    requires todo == set k | k in s.accumulators && k.proposal == p + 1
    ensures Progress(s, table, entries, p + 1, todo)
  {
    hide DecryptKey;
  }

  lemma AllDone(s: State, table: BSGSTable, entries: seq<TallyEntry>)
    requires Progress(s, table, entries, |s.round.options|, {})
    ensures IsTally(s, table, entries) && forall k :: Listed(s, k) ==> DecryptKey(s, table, k).Ok?
  {
    hide DecryptKey;
    forall k | Listed(s, k) ensures DecryptKey(s, table, k).Ok? {
      assert k in TallyKeys(entries);
    }
  }

  // ----- agreement with the chain

  lemma {:induction false} PartialCount(partials: map<nat, map<Key, Point>>, k: Key, n: nat)
    requires forall i :: i in partials ==> k in partials[i]
    ensures |PartialsBelow(partials, k, n)| == |set i | i in partials && i < n|
  {
    if n == 0 {
      assert (set i | i in partials && i < 0) == {};
    } else {
      PartialCount(partials, k, n - 1);
      var a, b := set i | i in partials && i < n - 1, set i | i in partials && i < n;
      assert b == if n - 1 in partials then a + {n - 1} else a;
    }
  }

  /** Every accumulator has one partial from each validator that submitted. */
  lemma PartialsPerValidator(s: State, k: Key)
    requires Inv(s) && k in s.accumulators
    ensures |PartialsFor(s, k)| == |s.partials|
  {
    hide Encrypts, CorrectPartial;
    PartialCount(s.partials, k, IndexLimit());
    assert (set i | i in s.partials && i < IndexLimit()) == s.partials.Keys;
  }

  ghost predicate ReadyTable(table: BSGSTable) {
    && IsTable(table) && table.n == TALLY_BOUND
    && table.m * (table.m + 1) <= WORD && table.m * (table.m + 1) <= Q
  }

  /** The table the program builds for its bound is ready. */
  lemma BuiltTableReady(table: BSGSTable)
    requires IsTable(table) && table.n == TALLY_BOUND && IsCeilSqrt(table.n, table.m) && Q > 2 * TALLY_BOUND
    ensures ReadyTable(table)
  {
    hide IsTable;
    RootBound(table.m);
  }

  lemma RootBound(m: int)
    requires m <= 1 || (m - 1) * (m - 1) < 0x1000_0000
    ensures m >= 0 ==> m * (m + 1) <= 0x1000_4000
  {
    var root := 0x4000;
    if m > root {
      ProductGrows(root, m - 1, root, m - 1);
    } else if m >= 0 {
      ProductGrows(m, root, m + 1, root + 1);
    }
  }

  lemma ProductGrows(a: int, b: int, c: int, d: int)
    requires 0 <= a <= b && 0 <= c <= d
    ensures a * c <= b * d
  {
    assert a * c <= b * c;
    assert b * c <= b * d;
  }

  /** Once a threshold of validators has submitted, decryption returns the vote sum of every
      accumulator whose sum is below the bound, and fails on the others. */
  lemma DecryptsToVoteSum(s: State, table: BSGSTable, k: Key)
    requires Inv(s) && !s.round.ceremony.Registering? && k in s.accumulators
    requires |s.partials| >= s.round.threshold && ReadyTable(table) && Sum(s.cast[k]) < Q && TALLY_BOUND < Q
    ensures DecryptKey(s, table, k) == if Sum(s.cast[k]) < TALLY_BOUND then Ok(Sum(s.cast[k])) else Err
  {
    PartialsPerValidator(s, k);
    CombinedOpens(s, k);
    var v := Sum(s.cast[k]);
    SolveExact(table, ValuePoint(v));
    if v >= TALLY_BOUND {
      forall x: nat | x < TALLY_BOUND ensures ValuePoint(v) != ValuePoint(x) {
        if ValuePoint(v) == ValuePoint(x) { ValuePointInjective(v, x); }
      }
    }
  }

  ghost predicate SumsBelowBound(s: State) {
    forall k :: k in s.cast ==> Sum(s.cast[k]) < TALLY_BOUND
  }

  lemma DecryptedEntryAccepted(s: State, table: BSGSTable, e: TallyEntry)
    requires Inv(s) && s.round.status.Tallying? && e.key in s.accumulators
    requires |s.partials| >= s.round.threshold && ReadyTable(table) && TALLY_BOUND < Q
    requires Sum(s.cast[e.key]) < TALLY_BOUND && DecryptKey(s, table, e.key) == Ok(e.total)
    ensures e.total == Sum(s.cast[e.key]) && EntryAccepted(s, e)
  {
    DecryptsToVoteSum(s, table, e.key);
    PartialsPerValidator(s, e.key);
    CombinedOpens(s, e.key);
  }

  /** End to end: in a tallying round that a threshold of validators has answered, the proposer's
      decryption succeeds, the chain accepts what it produces, and the finalized results are the
      vote sums. */
  lemma TallyEndToEnd(s: State, table: BSGSTable, entries: seq<TallyEntry>)
    requires Inv(s) && s.round.status.Tallying? && SumsBelowBound(s)
    requires |s.partials| >= s.round.threshold && ReadyTable(table) && TALLY_BOUND < Q
    ensures forall k :: Listed(s, k) ==> DecryptKey(s, table, k).Ok?
    ensures IsTally(s, table, entries) ==>
      var s' := Next(s, SubmitTally(entries));
      && TallyAccepted(s, entries) && s'.round.status.Finalized?
      && s'.results.Keys == s.cast.Keys && forall k :: k in s.cast ==> s'.results[k] == Sum(s.cast[k])
  {
    hide DecryptKey, Encrypts, CorrectPartial, EntryAccepted, IsTable, ResultMap;
    forall k | Listed(s, k) ensures DecryptKey(s, table, k).Ok? {
      DecryptsToVoteSum(s, table, k);
    }
    if IsTally(s, table, entries) {
      TallyIsAccepted(s, table, entries);
      ExactResults(s.cast, entries);
      ListedKeys(s, table, entries);
      hide TallyAccepted, IsTally, Inv;
      AcceptedTallyResults(s, entries);
    }
  }

  lemma AcceptedTallyResults(s: State, entries: seq<TallyEntry>)
    requires Inv(s) && TallyAccepted(s, entries)
    ensures Next(s, SubmitTally(entries)).round.status.Finalized?
    ensures Next(s, SubmitTally(entries)).results == ResultMap(map[], entries)
  {
    hide EntryAccepted, Encrypts, CorrectPartial, ResultMap;
  }

  lemma TallyIsAccepted(s: State, table: BSGSTable, entries: seq<TallyEntry>)
    requires Inv(s) && s.round.status.Tallying? && SumsBelowBound(s) && IsTally(s, table, entries)
    requires |s.partials| >= s.round.threshold && ReadyTable(table) && TALLY_BOUND < Q
    ensures TallyAccepted(s, entries)
    ensures forall i :: 0 <= i < |entries| ==>
      entries[i].key in s.cast && entries[i].total == Sum(s.cast[entries[i].key])
  {
    hide DecryptKey, Encrypts, CorrectPartial, EntryAccepted, IsTable;
    forall i | 0 <= i < |entries|
      ensures EntryAccepted(s, entries[i])
      ensures entries[i].key in s.cast && entries[i].total == Sum(s.cast[entries[i].key])
    {
      DecryptedEntryAccepted(s, table, entries[i]);
    }
    assert CoversAll(s, TallyKeys(entries)) by { ListedKeys(s, table, entries); }
  }

  lemma ListedKeys(s: State, table: BSGSTable, entries: seq<TallyEntry>)
    requires Inv(s) && IsTally(s, table, entries)
    ensures TallyKeys(entries) == s.cast.Keys
  {
    hide DecryptKey, Encrypts, CorrectPartial;
    forall k | k in s.cast ensures k in TallyKeys(entries) {
      assert Listed(s, k);
    }
  }

  lemma {:induction false} ExactResults(cast: map<Key, seq<nat>>, entries: seq<TallyEntry>)
    requires forall i :: 0 <= i < |entries| ==> entries[i].key in cast && entries[i].total == Sum(cast[entries[i].key])
    ensures var m := ResultMap(map[], entries);
      m.Keys == TallyKeys(entries) && forall k :: k in m ==> k in cast && m[k] == Sum(cast[k])
  {
    if entries != [] {
      var n := |entries| - 1;
      ExactResults(cast, entries[..n]);
      assert TallyKeys(entries) == TallyKeys(entries[..n]) + {entries[n].key};
    }
  }
}
