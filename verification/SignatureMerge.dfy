/** Signature lists with one entry per key id (mergeConfigPRSignatures in internal/admin/config_pr.go). */
module SignatureMerge {
  import opened Field

  datatype Signature = Signature(keyId: string, alg: string, sig: string)

  // ----- merging signature lists

  /** Replaces the first signature with the same key id, or appends. */
  function Put(s: seq<Signature>, x: Signature): seq<Signature> {
    if s == [] then [x]
    else if s[0].keyId == x.keyId then [x] + s[1..]
    else [s[0]] + Put(s[1..], x)
  }

  function Merge(existing: seq<Signature>, incoming: seq<Signature>): seq<Signature> {
    if incoming == [] then existing
    else Put(Merge(existing, incoming[..|incoming| - 1]), incoming[|incoming| - 1])
  }

  lemma {:induction false} PutAt(s: seq<Signature>, x: Signature, i: nat)
    requires i <= |s| && forall j :: 0 <= j < i ==> s[j].keyId != x.keyId
    ensures i == |s| ==> Put(s, x) == s + [x]
    ensures i < |s| && s[i].keyId == x.keyId ==> Put(s, x) == s[i := x]
  {
    if s != [] && s[0].keyId != x.keyId && i > 0 {
      PutAt(s[1..], x, i - 1);
      assert s == [s[0]] + s[1..];
      assert i < |s| ==> s[i := x] == [s[0]] + s[1..][i - 1 := x];
    } else if s != [] && i < |s| {
      assert s[0 := x] == [x] + s[1..];
    }
  }

  method MergeSignatures(existing: seq<Signature>, incoming: seq<Signature>) returns (merged: seq<Signature>)
    ensures merged == Merge(existing, incoming)
  {
    merged := existing;
    for n := 0 to |incoming|
      invariant merged == Merge(existing, incoming[..n])
    {
      var x := incoming[n];
      assert incoming[..n + 1][..n] == incoming[..n];
      ghost var before := merged;
      var replaced := false;
      var i := 0;
      while i < |merged| && !replaced
        invariant i <= |merged|
        invariant !replaced ==> merged == before && forall j :: 0 <= j < i ==> merged[j].keyId != x.keyId
        invariant replaced ==> merged == Put(before, x)
        decreases |merged| - i, !replaced
      {
        if merged[i].keyId == x.keyId {
          PutAt(merged, x, i);
          merged := merged[i := x];
          replaced := true;
        } else {
          i := i + 1;
        }
      }
      if !replaced {
        PutAt(merged, x, i);
        merged := merged + [x];
      }
    }
    assert incoming[..|incoming|] == incoming;
  }

  // ----- what a merge keeps

  ghost predicate UniqueIds(s: seq<Signature>) {
    forall i, j :: 0 <= i < j < |s| ==> s[i].keyId != s[j].keyId
  }

  function Ids(s: seq<Signature>): (ids: seq<string>)
    ensures |ids| == |s|
  {
    seq(|s|, i requires 0 <= i < |s| => s[i].keyId)
  }

  /** The last signature with the given key id. */
  function LastOf(s: seq<Signature>, id: string): (x: Option<Signature>)
    ensures x.Some? ==> x.value.keyId == id && x.value in s
    ensures x.Some? <==> id in Ids(s)
  {
    if s == [] then None
    else
      var n := |s| - 1;
      assert s == s[..n] + [s[n]];
      assert Ids(s) == Ids(s[..n]) + [s[n].keyId];
      if s[n].keyId == id then Some(s[n]) else LastOf(s[..n], id)
  }

  /** The key ids in order of their first appearance. */
  function FirstSeen(ids: seq<string>): seq<string> {
    if ids == [] then []
    else
      var n := |ids| - 1;
      var before := FirstSeen(ids[..n]);
      if ids[n] in before then before else before + [ids[n]]
  }

  /** Where an id is in the list, if it is. */
  lemma Locate(s: seq<Signature>, id: string) returns (i: nat)
    ensures i <= |s| && forall j :: 0 <= j < i ==> s[j].keyId != id
    ensures i < |s| ==> s[i].keyId == id
    ensures i < |s| <==> id in Ids(s)
  {
    i := 0;
    while i < |s| && s[i].keyId != id
      invariant i <= |s| && forall j :: 0 <= j < i ==> s[j].keyId != id
    {
      i := i + 1;
    }
    assert i < |s| ==> Ids(s)[i] == id;
  }

  lemma PutKeeps(s: seq<Signature>, x: Signature)
    requires UniqueIds(s)
    ensures UniqueIds(Put(s, x))
    ensures Ids(Put(s, x)) == if x.keyId in Ids(s) then Ids(s) else Ids(s) + [x.keyId]
  {
    var i := Locate(s, x.keyId);
    PutAt(s, x, i);
  }

  lemma {:induction false} LastInUnique(s: seq<Signature>, i: nat)
    requires UniqueIds(s) && i < |s|
    ensures LastOf(s, s[i].keyId) == Some(s[i])
  {
    var n := |s| - 1;
    if i < n {
      LastInUnique(s[..n], i);
    }
  }

  lemma PutValue(s: seq<Signature>, x: Signature, id: string)
    requires UniqueIds(s)
    ensures LastOf(Put(s, x), id) == if id == x.keyId then Some(x) else LastOf(s, id)
  {
    hide LastOf, Put;
    PutKeeps(s, x);
    var t := Put(s, x);
    var i := Locate(s, x.keyId);
    PutAt(s, x, i);
    assert t[i] == x;
    LastInUnique(t, i);
    var j := Locate(s, id);
    if id != x.keyId && j < |s| {
      assert t[j] == s[j];
      LastInUnique(s, j);
      LastInUnique(t, j);
    }
    NotListed(s, id);
    NotListed(t, id);
  }

  lemma NotListed(s: seq<Signature>, id: string)
    ensures LastOf(s, id).None? <==> id !in Ids(s)
  {
  }

  /** Starting from nothing, a merge has one signature per key id, in order of first appearance, each
      with the last value listed for it. */
  lemma {:induction false} MergeNormal(x: seq<Signature>)
    ensures UniqueIds(Merge([], x))
    ensures Ids(Merge([], x)) == FirstSeen(Ids(x))
    ensures forall id :: LastOf(Merge([], x), id) == LastOf(x, id)
  {
    hide Put;
    if x != [] {
      var n := |x| - 1;
      MergeNormal(x[..n]);
      PutKeeps(Merge([], x[..n]), x[n]);
      assert Ids(x)[..n] == Ids(x[..n]);
      forall id ensures LastOf(Merge([], x), id) == LastOf(x, id) {
        PutValue(Merge([], x[..n]), x[n], id);
      }
    }
  }

  lemma {:induction false} MergeAppend(s: seq<Signature>, a: seq<Signature>, b: seq<Signature>)
    ensures Merge(Merge(s, a), b) == Merge(s, a + b)
  {
    if b == [] {
      assert a + b == a;
    } else {
      var n := |b| - 1;
      MergeAppend(s, a, b[..n]);
      hide Merge, Put;
      assert (a + b)[..|a| + n] == a + b[..n] && (a + b)[|a| + n] == b[n];
      MergeLast(Merge(s, a), b);
      MergeLast(s, a + b);
    }
  }

  lemma MergeLast(s: seq<Signature>, b: seq<Signature>)
    requires b != []
    ensures Merge(s, b) == Put(Merge(s, b[..|b| - 1]), b[|b| - 1])
  {
  }

  lemma {:induction false} LastOfAppend(a: seq<Signature>, b: seq<Signature>, id: string)
    ensures LastOf(a + b, id) == if LastOf(b, id).Some? then LastOf(b, id) else LastOf(a, id)
  {
    hide LastOf;
    if b == [] {
      assert a + b == a;
      NotListed(b, id);
    } else {
      var n := |b| - 1;
      LastOfAppend(a, b[..n], id);
      assert (a + b)[..|a| + n] == a + b[..n] && (a + b)[|a| + n] == b[n];
      LastOfLast(b, id);
      LastOfLast(a + b, id);
    }
  }

  lemma LastOfLast(s: seq<Signature>, id: string)
    requires s != []
    ensures LastOf(s, id) == if s[|s| - 1].keyId == id then Some(s[|s| - 1]) else LastOf(s[..|s| - 1], id)
  {
  }

  lemma {:induction false} FirstSeenContents(ids: seq<string>)
    ensures forall id :: id in FirstSeen(ids) <==> id in ids
  {
    if ids != [] {
      var n := |ids| - 1;
      FirstSeenContents(ids[..n]);
      assert ids == ids[..n] + [ids[n]];
    }
  }

  /** Merging entries that are already there, with the values they already have, changes nothing. */
  lemma {:induction false} MergeKnown(s: seq<Signature>, b: seq<Signature>)
    requires UniqueIds(s) && forall i :: 0 <= i < |b| ==> b[i].keyId in Ids(s)
    requires forall id :: LastOf(b, id).Some? ==> LastOf(b, id) == LastOf(s, id)
    ensures Merge(s, b) == s
  {
    MergeKnownIds(s, b);
    var t := Merge(s, b);
    forall i | 0 <= i < |s| ensures t[i] == s[i] {
      assert Ids(t)[i] == Ids(s)[i];
      LastInUnique(s, i);
      LastInUnique(t, i);
    }
  }

  lemma {:induction false} MergeKnownIds(s: seq<Signature>, b: seq<Signature>)
    requires UniqueIds(s) && forall i :: 0 <= i < |b| ==> b[i].keyId in Ids(s)
    ensures UniqueIds(Merge(s, b)) && Ids(Merge(s, b)) == Ids(s)
    ensures forall id :: LastOf(Merge(s, b), id) == if LastOf(b, id).Some? then LastOf(b, id) else LastOf(s, id)
  {
    hide Put;
    if b != [] {
      var n := |b| - 1;
      MergeKnownIds(s, b[..n]);
      PutKeeps(Merge(s, b[..n]), b[n]);
      forall id ensures LastOf(Merge(s, b), id) == if LastOf(b, id).Some? then LastOf(b, id) else LastOf(s, id) {
        PutValue(Merge(s, b[..n]), b[n], id);
      }
    }
  }

  /** Merging any tail of a list into that list's own merge changes nothing. */
  lemma MergeTailAgain(a: seq<Signature>, b: seq<Signature>)
    ensures Merge([], Merge([], a + b) + b) == Merge([], a + b)
  {
    hide Merge, LastOf, FirstSeen;
    var s := Merge([], a + b);
    MergeNormal(a + b);
    MergeNormal(s);
    SelfMerge(s);
    MergeAppend([], s, b);
    FirstSeenContents(Ids(a + b));
    forall i | 0 <= i < |b| ensures b[i].keyId in Ids(s) {
      assert Ids(a + b)[|a| + i] == b[i].keyId;
    }
    forall id | LastOf(b, id).Some? ensures LastOf(b, id) == LastOf(s, id) {
      LastOfAppend(a, b, id);
    }
    MergeKnown(s, b);
  }

  lemma {:induction false} SelfMerge(s: seq<Signature>)
    requires UniqueIds(s)
    ensures Merge([], s) == s
  {
    if s != [] {
      var n := |s| - 1;
      SelfMerge(s[..n]);
      PutAt(s[..n], s[n], n);
      assert s == s[..n] + [s[n]];
    }
  }
}
