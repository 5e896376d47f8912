/** Vote share submissions in a block: what the proposer filters out and what every validator
    demands (app/vote_share_submission_proposal.go). */
module ShareFilter {
  import opened Field
  import opened ByteStrings

  const MAX_SUBMISSIONS: nat := 256

  const TAG_REVEAL_SHARE: byte := 0x04

  /** A decoder for share submissions: the (round, nullifier) key of a transaction that decodes and
      passes its stateless checks. */
  type KeyOf<!K> = Bytes -> Option<K>

  predicate IsSubmission(tx: Bytes) {
    |tx| > 0 && tx[0] == TAG_REVEAL_SHARE
  }

  // ----- what a block may contain

  /** The keys of the well-formed submissions. */
  ghost function Keys<K(!new)>(keyOf: KeyOf<K>, txs: seq<Bytes>): set<K> {
    set i | 0 <= i < |txs| && IsSubmission(txs[i]) && keyOf(txs[i]).Some? :: keyOf(txs[i]).value
  }

  function Submissions(txs: seq<Bytes>): nat {
    if txs == [] then 0
    else Submissions(txs[..|txs| - 1]) + if IsSubmission(txs[|txs| - 1]) then 1 else 0
  }

  /** Every submission is well-formed, no two share a key, and there are at most 256. */
  ghost predicate ValidSubmissions<K>(keyOf: KeyOf<K>, txs: seq<Bytes>) {
    && (forall i :: 0 <= i < |txs| && IsSubmission(txs[i]) ==> keyOf(txs[i]).Some?)
    && (forall i, j :: 0 <= i < j < |txs| && IsSubmission(txs[i]) && IsSubmission(txs[j]) ==>
      keyOf(txs[i]) != keyOf(txs[j]))
    && Submissions(txs) <= MAX_SUBMISSIONS
  }

  /** Transaction i survives: it is no submission, or a well-formed one whose key is new and among the
      first 256 distinct keys. */
  ghost predicate Survives<K(!new)>(keyOf: KeyOf<K>, txs: seq<Bytes>, i: nat)
    requires i < |txs|
  {
    IsSubmission(txs[i]) ==>
      && keyOf(txs[i]).Some?
      && keyOf(txs[i]).value !in Keys(keyOf, txs[..i])
      && |Keys(keyOf, txs[..i])| < MAX_SUBMISSIONS
  }

  /** The surviving transactions, in their order. */
  ghost function Surviving<K(!new)>(keyOf: KeyOf<K>, txs: seq<Bytes>): seq<Bytes> {
    if txs == [] then []
    else
      var n := |txs| - 1;
      Surviving(keyOf, txs[..n]) + if Survives(keyOf, txs, n) then [txs[n]] else []
  }

  // ----- the two loops

  datatype Stats = Stats(kept: nat, duplicates: nat, malformed: nat, overLimit: nat)

  ghost predicate SeenFirst<K>(seen: set<K>, keys: set<K>) {
    seen <= keys && |seen| == if |keys| <= MAX_SUBMISSIONS then |keys| else MAX_SUBMISSIONS
  }

  lemma SubsetSize<K>(a: set<K>, b: set<K>)
    requires a <= b
    ensures |a| <= |b| && (|a| == |b| ==> a == b)
  {
    assert b == a + (b - a);
  }

  lemma KeysSnoc<K(!new)>(keyOf: KeyOf<K>, txs: seq<Bytes>, n: nat)
    requires n < |txs|
    ensures Keys(keyOf, txs[..n + 1]) == Keys(keyOf, txs[..n]) +
      if IsSubmission(txs[n]) && keyOf(txs[n]).Some? then {keyOf(txs[n]).value} else {}
  {
    var a, b := txs[..n], txs[..n + 1];
    assert forall i :: 0 <= i < n ==> a[i] == b[i];
    assert b[n] == txs[n];
  }

  lemma SeenAnother<K>(seen: set<K>, keys: set<K>, k: K)
    requires SeenFirst(seen, keys)
    ensures k in seen ==> SeenFirst(seen, keys + {k}) && k in keys
    ensures k !in seen && |seen| >= MAX_SUBMISSIONS ==> SeenFirst(seen, keys + {k}) && |keys| >= MAX_SUBMISSIONS
    ensures k !in seen && |seen| < MAX_SUBMISSIONS ==>
      SeenFirst(seen + {k}, keys + {k}) && k !in keys && |keys| < MAX_SUBMISSIONS
  {
    SubsetSize(seen, keys);
    assert k in keys ==> keys + {k} == keys;
  }

  lemma SurvivingSnoc<K(!new)>(keyOf: KeyOf<K>, txs: seq<Bytes>, n: nat)
    requires n < |txs|
    ensures Surviving(keyOf, txs[..n + 1]) ==
      Surviving(keyOf, txs[..n]) + if Survives(keyOf, txs, n) then [txs[n]] else []
  {
    var b := txs[..n + 1];
    assert b[..n] == txs[..n] && b[n] == txs[n];
  }

  /** The filter's state after the given transactions. */
  ghost predicate Filtered<K(!new)>(keyOf: KeyOf<K>, txs: seq<Bytes>, filtered: seq<Bytes>, seen: set<K>,
                                    stats: Stats) {
    && filtered == Surviving(keyOf, txs)
    && SeenFirst(seen, Keys(keyOf, txs)) && |seen| == stats.kept
    && stats.kept + stats.duplicates + stats.malformed + stats.overLimit == Submissions(txs)
    && stats.kept == Submissions(filtered)
    && |filtered| + stats.duplicates + stats.malformed + stats.overLimit == |txs|
  }

  lemma Unfiltered<K(!new)>(keyOf: KeyOf<K>, txs: seq<Bytes>)
    ensures Filtered(keyOf, txs[..0], [], {}, Stats(0, 0, 0, 0))
  {
    StartEmpty(keyOf, txs);
  }

  lemma FilterOther<K(!new)>(keyOf: KeyOf<K>, txs: seq<Bytes>, i: nat, filtered: seq<Bytes>, seen: set<K>, stats: Stats)
    requires i < |txs| && Filtered(keyOf, txs[..i], filtered, seen, stats)
    ensures !IsSubmission(txs[i]) ==> Filtered(keyOf, txs[..i + 1], filtered + [txs[i]], seen, stats)
    ensures IsSubmission(txs[i]) && keyOf(txs[i]).None? ==>
      Filtered(keyOf, txs[..i + 1], filtered, seen, stats.(malformed := stats.malformed + 1))
  {
    hide Surviving, Keys, IsSubmission, Submissions;
    SurvivingSnoc(keyOf, txs, i);
    KeysSnoc(keyOf, txs, i);
    SubmissionsSnoc(txs[..i], txs[i]);
    SubmissionsSnoc(filtered, txs[i]);
    assert txs[..i + 1] == txs[..i] + [txs[i]];
  }

  lemma FilterKeyed<K(!new)>(keyOf: KeyOf<K>, txs: seq<Bytes>, i: nat, filtered: seq<Bytes>, seen: set<K>,
                             stats: Stats, k: K)
    requires i < |txs| && Filtered(keyOf, txs[..i], filtered, seen, stats)
    requires IsSubmission(txs[i]) && keyOf(txs[i]) == Some(k)
    ensures
      if k in seen then Filtered(keyOf, txs[..i + 1], filtered, seen, stats.(duplicates := stats.duplicates + 1))
      else if stats.kept >= MAX_SUBMISSIONS then
        Filtered(keyOf, txs[..i + 1], filtered, seen, stats.(overLimit := stats.overLimit + 1))
      else Filtered(keyOf, txs[..i + 1], filtered + [txs[i]], seen + {k}, stats.(kept := stats.kept + 1))
  {
    hide Surviving, Keys, IsSubmission, Submissions, SeenFirst;
    SurvivingSnoc(keyOf, txs, i);
    KeysSnoc(keyOf, txs, i);
    SubmissionsSnoc(txs[..i], txs[i]);
    SubmissionsSnoc(filtered, txs[i]);
    assert txs[..i + 1] == txs[..i] + [txs[i]];
    SeenAnother(seen, Keys(keyOf, txs[..i]), k);
  }

  /** The filter: the survivors, and counters that account for every submission. */
  method FilterSubmissions<K(!new, ==)>(keyOf: KeyOf<K>, txs: seq<Bytes>) returns (filtered: seq<Bytes>, stats: Stats)
    ensures filtered == Surviving(keyOf, txs)
    ensures stats.kept + stats.duplicates + stats.malformed + stats.overLimit == Submissions(txs)
    ensures stats.kept == Submissions(filtered) <= MAX_SUBMISSIONS
    ensures |filtered| + stats.duplicates + stats.malformed + stats.overLimit == |txs|
  {
    hide Filtered, Surviving, Keys, Submissions, IsSubmission;
    filtered := [];
    var seen: set<K> := {};
    stats := Stats(0, 0, 0, 0);
    Unfiltered(keyOf, txs);
    for i := 0 to |txs|
      invariant Filtered(keyOf, txs[..i], filtered, seen, stats)
    {
      var tx := txs[i];
      FilterOther(keyOf, txs, i, filtered, seen, stats);
      if !IsSubmission(tx) {
        filtered := filtered + [tx];
      } else if keyOf(tx).None? {
        stats := stats.(malformed := stats.malformed + 1);
      } else {
        var key := keyOf(tx).value;
        FilterKeyed(keyOf, txs, i, filtered, seen, stats, key);
        if key in seen {
          stats := stats.(duplicates := stats.duplicates + 1);
        } else if stats.kept >= MAX_SUBMISSIONS {
          stats := stats.(overLimit := stats.overLimit + 1);
        } else {
          seen := seen + {key};
          stats := stats.(kept := stats.kept + 1);
          filtered := filtered + [tx];
        }
      }
    }
    assert txs[..|txs|] == txs;
    FilterDone(keyOf, txs, filtered, seen, stats);
  }

  lemma FilterDone<K(!new)>(keyOf: KeyOf<K>, txs: seq<Bytes>, filtered: seq<Bytes>, seen: set<K>, stats: Stats)
    requires Filtered(keyOf, txs, filtered, seen, stats)
    ensures filtered == Surviving(keyOf, txs) && stats.kept == Submissions(filtered) <= MAX_SUBMISSIONS
    ensures stats.kept + stats.duplicates + stats.malformed + stats.overLimit == Submissions(txs)
    ensures |filtered| + stats.duplicates + stats.malformed + stats.overLimit == |txs|
  {
  }

  lemma StartEmpty<K(!new)>(keyOf: KeyOf<K>, txs: seq<Bytes>)
    ensures Surviving(keyOf, txs[..0]) == [] && Keys(keyOf, txs[..0]) == {} && Submissions(txs[..0]) == 0
  {
  }

  lemma SubmissionsSnoc(txs: seq<Bytes>, tx: Bytes)
    ensures Submissions(txs + [tx]) == Submissions(txs) + if IsSubmission(tx) then 1 else 0
  {
    assert (txs + [tx])[..|txs|] == txs;
  }

  /** The validator's loop, stopping at the first offence. */
  method ValidateSubmissions<K(!new, ==)>(keyOf: KeyOf<K>, txs: seq<Bytes>) returns (ok: bool)
    ensures ok <==> ValidSubmissions(keyOf, txs)
  {
    hide ValidSubmissions, Keys, IsSubmission, Submissions;
    var seen: set<K> := {};
    var count := 0;
    StartEmpty(keyOf, txs);
    EmptyValid(keyOf, txs);
    for i := 0 to |txs|
      invariant ValidSubmissions(keyOf, txs[..i])
      invariant seen == Keys(keyOf, txs[..i]) && count == Submissions(txs[..i])
    {
      var tx := txs[i];
      KeysSnoc(keyOf, txs, i);
      SubmissionsSnoc(txs[..i], tx);
      ValidSnoc(keyOf, txs[..i], tx);
      assert txs[..i + 1] == txs[..i] + [tx];
      if IsSubmission(tx) {
        if keyOf(tx).None? || keyOf(tx).value in seen || count + 1 > MAX_SUBMISSIONS {
          PrefixValid(keyOf, txs, i + 1);
          return false;
        }
        seen := seen + {keyOf(tx).value};
        count := count + 1;
      }
    }
    assert txs[..|txs|] == txs;
    return true;
  }

  lemma EmptyValid<K>(keyOf: KeyOf<K>, txs: seq<Bytes>)
    ensures ValidSubmissions(keyOf, txs[..0])
  {
  }

  // ----- what validity composes from

  lemma ValidSnoc<K(!new)>(keyOf: KeyOf<K>, txs: seq<Bytes>, tx: Bytes)
    ensures ValidSubmissions(keyOf, txs + [tx]) <==>
      && ValidSubmissions(keyOf, txs)
      && (IsSubmission(tx) ==>
        keyOf(tx).Some? && keyOf(tx).value !in Keys(keyOf, txs) && Submissions(txs) < MAX_SUBMISSIONS)
  {
    hide IsSubmission, Submissions;
    var all := txs + [tx];
    SubmissionsSnoc(txs, tx);
    assert forall i :: 0 <= i < |txs| ==> all[i] == txs[i];
    assert all[|txs|] == tx;
    assert IsSubmission(tx) && keyOf(tx).Some? ==> (keyOf(tx).value in Keys(keyOf, txs) <==>
      exists i :: 0 <= i < |txs| && IsSubmission(txs[i]) && keyOf(txs[i]) == keyOf(tx));
  }

  lemma {:induction false} PrefixValid<K(!new)>(keyOf: KeyOf<K>, txs: seq<Bytes>, n: nat)
    requires n <= |txs|
    ensures ValidSubmissions(keyOf, txs) ==> ValidSubmissions(keyOf, txs[..n])
    decreases |txs| - n
  {
    hide ValidSubmissions, Keys, IsSubmission, Submissions;
    if n == |txs| {
      assert txs[..n] == txs;
    } else {
      PrefixValid(keyOf, txs, n + 1);
      assert txs[..n + 1] == txs[..n] + [txs[n]];
      ValidSnoc(keyOf, txs[..n], txs[n]);
    }
  }

  lemma {:induction false} PrependCount(tx: Bytes, txs: seq<Bytes>)
    ensures Submissions([tx] + txs) == Submissions(txs) + if IsSubmission(tx) then 1 else 0
  {
    if txs == [] {
      assert [tx] + txs == [] + [tx];
      SubmissionsSnoc([], tx);
    } else {
      var n := |txs| - 1;
      PrependCount(tx, txs[..n]);
      assert ([tx] + txs)[..n + 1] == [tx] + txs[..n];
    }
  }

  lemma PrependKeys<K(!new)>(keyOf: KeyOf<K>, tx: Bytes, txs: seq<Bytes>)
    requires !IsSubmission(tx)
    ensures Keys(keyOf, [tx] + txs) == Keys(keyOf, txs)
  {
    hide IsSubmission;
    var all := [tx] + txs;
    assert forall i :: 1 <= i < |all| ==> all[i] == txs[i - 1];
    assert forall i :: 0 <= i < |txs| ==> all[i + 1] == txs[i];
  }

  /** Prepending something else changes nothing. */
  lemma {:induction false} PrependValid<K(!new)>(keyOf: KeyOf<K>, tx: Bytes, txs: seq<Bytes>)
    requires !IsSubmission(tx)
    ensures ValidSubmissions(keyOf, [tx] + txs) <==> ValidSubmissions(keyOf, txs)
  {
    hide ValidSubmissions, Keys, IsSubmission, Submissions;
    if txs == [] {
      assert [tx] + txs == txs + [tx];
      ValidSnoc(keyOf, txs, tx);
    } else {
      var n := |txs| - 1;
      PrependValid(keyOf, tx, txs[..n]);
      PrependKeys(keyOf, tx, txs[..n]);
      PrependCount(tx, txs[..n]);
      assert txs == txs[..n] + [txs[n]] && [tx] + txs == ([tx] + txs[..n]) + [txs[n]];
      ValidSnoc(keyOf, txs[..n], txs[n]);
      ValidSnoc(keyOf, [tx] + txs[..n], txs[n]);
    }
  }

  // ----- filter and validator have the same fixed points

  /** Below the limit a valid block has as many keys as submissions. */
  lemma {:induction false} KeyPerSubmission<K(!new)>(keyOf: KeyOf<K>, txs: seq<Bytes>)
    requires ValidSubmissions(keyOf, txs)
    ensures |Keys(keyOf, txs)| == Submissions(txs)
  {
    hide ValidSubmissions, Keys, IsSubmission;
    assert txs[..|txs|] == txs;
    if txs == [] {
      StartEmpty(keyOf, txs);
    } else {
      var n := |txs| - 1;
      assert txs == txs[..n] + [txs[n]];
      ValidSnoc(keyOf, txs[..n], txs[n]);
      KeyPerSubmission(keyOf, txs[..n]);
      KeysSnoc(keyOf, txs, n);
    }
  }

  lemma {:induction false} SurvivingInvariant<K(!new)>(keyOf: KeyOf<K>, txs: seq<Bytes>)
    ensures ValidSubmissions(keyOf, Surviving(keyOf, txs))
    ensures SeenFirst(Keys(keyOf, Surviving(keyOf, txs)), Keys(keyOf, txs))
    ensures |Surviving(keyOf, txs)| <= |txs|
  {
    hide ValidSubmissions, Keys, IsSubmission, Submissions;
    if txs == [] {
      StartEmpty(keyOf, txs);
      EmptyValid(keyOf, txs);
      assert txs[..0] == [];
    } else {
      var n := |txs| - 1;
      var before := Surviving(keyOf, txs[..n]);
      SurvivingInvariant(keyOf, txs[..n]);
      KeyPerSubmission(keyOf, before);
      assert txs[..n + 1] == txs;
      KeysSnoc(keyOf, txs, n);
      ValidSnoc(keyOf, before, txs[n]);
      var after := before + [txs[n]];
      assert after[..|before|] == before && after[..|before| + 1] == after;
      KeysSnoc(keyOf, after, |before|);
      assert Surviving(keyOf, txs) == if Survives(keyOf, txs, n) then after else before;
      if IsSubmission(txs[n]) && keyOf(txs[n]).Some? {
        SeenAnother(Keys(keyOf, before), Keys(keyOf, txs[..n]), keyOf(txs[n]).value);
        SubsetSize(Keys(keyOf, before), Keys(keyOf, txs[..n]));
      }
    }
  }

  /** Whatever the mempool holds, the filter's output validates, and a block validates exactly when
      the filter would leave it unchanged; filtering twice is filtering once. */
  lemma {:induction false} ValidIffUnchanged<K(!new)>(keyOf: KeyOf<K>, txs: seq<Bytes>)
    ensures ValidSubmissions(keyOf, Surviving(keyOf, txs))
    ensures ValidSubmissions(keyOf, txs) <==> Surviving(keyOf, txs) == txs
    ensures Surviving(keyOf, Surviving(keyOf, txs)) == Surviving(keyOf, txs)
  {
    hide ValidSubmissions, Surviving;
    SurvivingInvariant(keyOf, txs);
    if ValidSubmissions(keyOf, txs) {
      ValidUnchanged(keyOf, txs);
    }
    ValidUnchanged(keyOf, Surviving(keyOf, txs));
  }

  lemma {:induction false} ValidUnchanged<K(!new)>(keyOf: KeyOf<K>, txs: seq<Bytes>)
    requires ValidSubmissions(keyOf, txs)
    ensures Surviving(keyOf, txs) == txs
  {
    hide ValidSubmissions, Keys, IsSubmission, Submissions;
    if txs != [] {
      var n := |txs| - 1;
      assert txs == txs[..n] + [txs[n]];
      ValidSnoc(keyOf, txs[..n], txs[n]);
      KeyPerSubmission(keyOf, txs[..n]);
      ValidUnchanged(keyOf, txs[..n]);
    }
  }

  // ----- byte trimming

  function TotalSize(size: Bytes -> nat, txs: seq<Bytes>): nat {
    if txs == [] then 0 else TotalSize(size, txs[..|txs| - 1]) + size(txs[|txs| - 1])
  }

  lemma {:induction false} TotalSizeMonotone(size: Bytes -> nat, txs: seq<Bytes>, a: nat, b: nat)
    requires a <= b <= |txs|
    ensures TotalSize(size, txs[..a]) <= TotalSize(size, txs[..b])
  {
    if a < b {
      TotalSizeMonotone(size, txs, a, b - 1);
      assert txs[..b][..b - 1] == txs[..b - 1];
    }
  }

  /** Keeps the longest prefix that fits the budget; a negative budget means none. */
  method TrimToMaxBytes(size: Bytes -> nat, txs: seq<Bytes>, maxTxBytes: int) returns (kept: seq<Bytes>, dropped: nat)
    ensures |kept| + dropped == |txs| && kept == txs[..|kept|]
    ensures maxTxBytes < 0 ==> kept == txs
    ensures maxTxBytes >= 0 ==>
      forall n: nat :: n <= |txs| ==> (n <= |kept| <==> TotalSize(size, txs[..n]) <= maxTxBytes)
  {
    if maxTxBytes < 0 {
      assert txs == txs[..|txs|];
      return txs, 0;
    }
    var total := 0;
    for i := 0 to |txs|
      invariant total == TotalSize(size, txs[..i]) <= maxTxBytes
      invariant forall n: nat :: n <= i ==> TotalSize(size, txs[..n]) <= maxTxBytes
    {
      assert txs[..i + 1][..i] == txs[..i];
      if total + size(txs[i]) > maxTxBytes {
        forall n: nat | i < n <= |txs| ensures TotalSize(size, txs[..n]) > maxTxBytes {
          TotalSizeMonotone(size, txs, i + 1, n);
        }
        return txs[..i], |txs| - i;
      }
      total := total + size(txs[i]);
    }
    assert txs == txs[..|txs|];
    return txs, 0;
  }
}
