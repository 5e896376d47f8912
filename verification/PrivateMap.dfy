/** The reference for the key-value callbacks: a participant with an ordered map of its own, whose scans
    are snapshots taken when they are opened. */
module PrivateMap {
  import opened Field
  import opened ByteStrings
  import opened PrefixScan
  import opened PrefixedView

  /** Taking the address of the first byte of an empty slice panics. */
  datatype GetOutcome = Found(value: Bytes) | NotFound | GetPanics

  datatype NextOutcome = Entry(key: Bytes, value: Bytes) | Exhausted | NextPanics

  datatype Item = Item(key: Bytes, value: Bytes)

  // ----- sorted listings

  function InsertKey(s: seq<Bytes>, k: Bytes): seq<Bytes> {
    if s == [] then [k]
    else if Less(k, s[0]) then [k] + s
    else [s[0]] + InsertKey(s[1..], k)
  }

  lemma {:induction false} InsertContents(s: seq<Bytes>, k: Bytes)
    ensures forall x :: x in InsertKey(s, k) <==> x == k || x in s
  {
    if s != [] && !Less(k, s[0]) {
      InsertContents(s[1..], k);
      assert s == [s[0]] + s[1..];
    }
  }

  lemma {:induction false} InsertSorted(s: seq<Bytes>, k: Bytes)
    requires Ascending(s) && k !in s
    ensures Ascending(InsertKey(s, k))
  {
    if s != [] {
      if Less(k, s[0]) {
        forall i | 0 <= i < |s| ensures Less(k, s[i]) {
          if i > 0 {
            LessTransitive(k, s[0], s[i]);
          }
        }
      } else {
        LessTotal(k, s[0]);
        var t := InsertKey(s[1..], k);
        InsertSorted(s[1..], k);
        InsertContents(s[1..], k);
        forall i | 0 <= i < |t| ensures Less(s[0], t[i]) {
          assert t[i] in t;
        }
      }
    }
  }

  /** The elements of a set in ascending order. */
  ghost function Sorted(s: set<Bytes>): seq<Bytes> {
    if s == {} then [] else var x :| x in s; InsertKey(Sorted(s - {x}), x)
  }

  lemma {:induction false} SortedLists(s: set<Bytes>)
    ensures Ascending(Sorted(s)) && forall k :: k in Sorted(s) <==> k in s
    decreases |s|
  {
    hide Less, InsertKey;
    if s != {} {
      var x :| x in s && Sorted(s) == InsertKey(Sorted(s - {x}), x);
      SortedLists(s - {x});
      InsertSorted(Sorted(s - {x}), x);
      InsertContents(Sorted(s - {x}), x);
    }
  }

  function Backwards(s: seq<Bytes>): (r: seq<Bytes>)
    ensures |r| == |s|
  {
    seq(|s|, i requires 0 <= i < |s| => s[|s| - 1 - i])
  }

  lemma BackwardsContents(s: seq<Bytes>)
    ensures forall k :: k in Backwards(s) <==> k in s
    ensures Backwards(Backwards(s)) == s
  {
    forall k ensures k in Backwards(s) <==> k in s {
      if k in s {
        var i :| 0 <= i < |s| && s[i] == k;
        assert Backwards(s)[|s| - 1 - i] == k;
      }
    }
  }

  ghost predicate ListsPrefix(keys: seq<Bytes>, m: map<Bytes, Bytes>, raw: Bytes, reverse: bool) {
    InOrder(keys, reverse) && forall r :: r in keys <==> r in m && StartsWith(r, raw)
  }

  /** The map's keys that begin with the prefix, in the requested order. */
  ghost function Listing(m: map<Bytes, Bytes>, raw: Bytes, reverse: bool): (keys: seq<Bytes>)
    ensures ListsPrefix(keys, m, raw, reverse)
  {
    var found := set r | r in m && StartsWith(r, raw);
    SortedLists(found);
    BackwardsContents(Sorted(found));
    if reverse then Backwards(Sorted(found)) else Sorted(found)
  }

  /** There is only one such listing. */
  lemma ListingDetermined(keys: seq<Bytes>, m: map<Bytes, Bytes>, raw: Bytes, reverse: bool)
    requires ListsPrefix(keys, m, raw, reverse)
    ensures keys == Listing(m, raw, reverse)
  {
    hide Listing, Less, StartsWith;
    var other := Listing(m, raw, reverse);
    if reverse {
      BackwardsContents(keys);
      BackwardsContents(other);
      ListingUnique(Backwards(keys), Backwards(other));
    } else {
      ListingUnique(keys, other);
    }
  }

  /** The entries behind full keys, with the prefix stripped. */
  ghost function Items(prefix: Bytes, keys: seq<Bytes>, data: map<Bytes, Bytes>): (items: seq<Item>)
    requires forall i :: 0 <= i < |keys| ==> keys[i] in data
    ensures |items| == |keys|
  {
    seq(|keys|, i requires 0 <= i < |keys| => Item(Strip(prefix, keys[i]), data[keys[i]]))
  }

  /** What a scan of the private map hands out, as of its opening. */
  ghost function Snapshot(m: map<Bytes, Bytes>, raw: Bytes, reverse: bool): seq<Item> {
    var keys := Listing(m, raw, reverse);
    assert forall i :: 0 <= i < |keys| ==> keys[i] in keys;
    Items([], keys, m)
  }

  // ----- a scan through the proxy against a scan of the private map

  lemma FaithfulSnapshot(data: map<Bytes, Bytes>, p: Bytes, raw: Bytes, reverse: bool, keys: seq<Bytes>)
    requires Lists(keys, data, Some(p + raw), EndKey(p + raw), reverse) && ScanFaithful(data, p + raw)
    requires forall i :: 0 <= i < |keys| ==> keys[i] in data
    ensures Items(p, keys, data) == Snapshot(View(data, p), raw, reverse)
  {
    hide Less, InRange, EndKey, StartsWith, Strip, ScanFaithful, Listing, View, InOrder, Lists;
    var rs := StripAll(p, keys);
    ScanListsView(data, p, raw, reverse, keys);
    ListingDetermined(rs, View(data, p), raw, reverse);
    forall i | 0 <= i < |keys| ensures Items(p, keys, data)[i] == Item(rs[i], View(data, p)[rs[i]]) {
    }
    forall i | 0 <= i < |rs| ensures Strip([], rs[i]) == rs[i] {
      StripNothing(rs[i]);
    }
  }

  lemma StripNothing(k: Bytes)
    ensures Strip([], k) == k
  {
  }

  /** A stray key spoils the scan: its entry is either foreign to the private map or a second entry
      under a key that is listed already. */
  lemma StraySpoils(data: map<Bytes, Bytes>, p: Bytes, raw: Bytes, reverse: bool, keys: seq<Bytes>, k: Bytes)
    requires Lists(keys, data, Some(p + raw), EndKey(p + raw), reverse)
    requires forall i :: 0 <= i < |keys| ==> keys[i] in data
    requires p + raw != [] && k in data && Stray(k, p + raw)
    ensures Items(p, keys, data) != Snapshot(View(data, p), raw, reverse)
  {
    hide Less, InRange, EndKey, StartsWith, Strip, Stray, Listing, View, Items, Snapshot;
    StrayIsListed(data, p + raw, reverse, keys, k);
    var view := View(data, p);
    var listing, r := Listing(view, raw, reverse), Strip(p, k);
    SnapshotKeys(view, raw, reverse);
    ItemKeys(p, keys, data);
    var i :| 0 <= i < |keys| && keys[i] == k;
    if Items(p, keys, data) == Snapshot(view, raw, reverse) {
      assert listing[i] == r && r in listing;
      TwinKey(data, p, raw, reverse, keys, r);
      var j :| 0 <= j < |keys| && keys[j] == p + r;
      assert listing[j] == r;
      LessTotal(r, r);
    }
  }

  lemma StrayIsListed(data: map<Bytes, Bytes>, p: Bytes, reverse: bool, keys: seq<Bytes>, k: Bytes)
    requires Lists(keys, data, Some(p), EndKey(p), reverse) && p != [] && k in data && Stray(k, p)
    ensures k in keys && !StartsWith(k, p)
  {
    RangeExact(k, p);
    StrayNoPrefix(k, p);
  }

  lemma TwinKey(data: map<Bytes, Bytes>, p: Bytes, raw: Bytes, reverse: bool, keys: seq<Bytes>, r: Bytes)
    requires Lists(keys, data, Some(p + raw), EndKey(p + raw), reverse) && p + raw != []
    requires r in View(data, p) && StartsWith(r, raw)
    ensures p + r in keys && StartsWith(p + r, p + raw) && Strip(p, p + r) == r
  {
    hide Less, StartsWith, Strip, InOrder;
    StripPrefixed(p, r);
    StartsJoin(p, raw, p + r);
    RangeExact(p + r, p + raw);
  }

  lemma ItemKeys(p: Bytes, keys: seq<Bytes>, data: map<Bytes, Bytes>)
    requires forall i :: 0 <= i < |keys| ==> keys[i] in data
    ensures forall i :: 0 <= i < |keys| ==> Items(p, keys, data)[i].key == Strip(p, keys[i])
  {
  }

  lemma StrayNoPrefix(k: Bytes, p: Bytes)
    requires Stray(k, p)
    ensures !StartsWith(k, p)
  {
  }

  lemma SnapshotKeys(m: map<Bytes, Bytes>, raw: Bytes, reverse: bool)
    ensures var keys := Listing(m, raw, reverse);
      && |Snapshot(m, raw, reverse)| == |keys|
      && forall i :: 0 <= i < |keys| ==> Snapshot(m, raw, reverse)[i].key == keys[i]
  {
    hide Listing, Less;
    var keys := Listing(m, raw, reverse);
    forall i | 0 <= i < |keys| ensures Strip([], keys[i]) == keys[i] {
      StripNothing(keys[i]);
    }
  }

  lemma EmptyPrefixSpoils(data: map<Bytes, Bytes>, reverse: bool, keys: seq<Bytes>)
    requires Lists(keys, data, Some([]), EndKey([]), reverse) && data != map[]
    requires forall i :: 0 <= i < |keys| ==> keys[i] in data
    ensures Items([], keys, data) != Snapshot(View(data, []), [], reverse)
  {
    hide Less, Listing;
    var k :| k in data;
    assert [] + k == k;
    assert k in Listing(View(data, []), [], reverse);
    SomeElement(keys);
    SnapshotKeys(View(data, []), [], reverse);
  }

  lemma SomeElement(keys: seq<Bytes>)
    ensures keys == [] || exists k :: k in keys
  {
    if keys != [] {
      assert keys[0] in keys;
    }
  }

  /** A scan opened through the proxy hands out what the private map's own scan would, if and only if
      no stored key is stray for its prefix. */
  lemma SnapshotExact(data: map<Bytes, Bytes>, p: Bytes, raw: Bytes, reverse: bool, keys: seq<Bytes>)
    requires Lists(keys, data, Some(p + raw), EndKey(p + raw), reverse)
    requires forall i :: 0 <= i < |keys| ==> keys[i] in data
    ensures Items(p, keys, data) == Snapshot(View(data, p), raw, reverse) <==> ScanFaithful(data, p + raw)
  {
    hide Lists, Items, Snapshot, View, Stray;
    if ScanFaithful(data, p + raw) {
      FaithfulSnapshot(data, p, raw, reverse, keys);
    } else if p + raw == [] {
      assert p == [] && raw == [];
      EmptyPrefixSpoils(data, reverse, keys);
    } else {
      var k :| k in data && Stray(k, p + raw);
      StraySpoils(data, p, raw, reverse, keys, k);
    }
  }

  // ----- operations and their outputs

  datatype Who = First | Second

  /** Step advances the participant's n-th opened scan. */
  datatype Op =
    | Put(who: Who, key: Bytes, value: Bytes)
    | Remove(who: Who, key: Bytes)
    | Get(who: Who, key: Bytes)
    | OpenScan(who: Who, raw: Bytes, reverse: bool)
    | Step(who: Who, scan: nat)

  datatype Output = Done | Got(got: GetOutcome) | Stepped(next: NextOutcome) | NoSuchScan

  datatype Private = Private(m: map<Bytes, Bytes>, scans: seq<seq<Item>>, outs: seq<Output>)

  function Lookup(m: map<Bytes, Bytes>, key: Bytes): GetOutcome {
    if key !in m then NotFound else if m[key] == [] then GetPanics else Found(m[key])
  }

  function FirstOf(scan: seq<Item>): NextOutcome {
    if scan == [] then Exhausted
    else if scan[0].key == [] || scan[0].value == [] then NextPanics
    else Entry(scan[0].key, scan[0].value)
  }

  function Rest(scan: seq<Item>): seq<Item> {
    if scan == [] then [] else scan[1..]
  }

  ghost function PrivateStep(p: Private, op: Op): Private {
    match op
    case Put(_, k, v) => p.(m := p.m[k := v], outs := p.outs + [Done])
    case Remove(_, k) => p.(m := p.m - {k}, outs := p.outs + [Done])
    case Get(_, k) => p.(outs := p.outs + [Got(Lookup(p.m, k))])
    case OpenScan(_, raw, reverse) => p.(scans := p.scans + [Snapshot(p.m, raw, reverse)], outs := p.outs + [Done])
    case Step(_, n) =>
      if n >= |p.scans| then p.(outs := p.outs + [NoSuchScan])
      else p.(scans := p.scans[n := Rest(p.scans[n])], outs := p.outs + [Stepped(FirstOf(p.scans[n]))])
  }

  /** One participant's operations on a map of its own; the other's do not exist for it. */
  ghost function PrivateRun(m: map<Bytes, Bytes>, ops: seq<Op>, who: Who): Private {
    if ops == [] then Private(m, [], [])
    else
      var n := |ops| - 1;
      var before := PrivateRun(m, ops[..n], who);
      if ops[n].who == who then PrivateStep(before, ops[n]) else before
  }

  // ----- no panics

  ghost predicate NoEmpties(m: map<Bytes, Bytes>) {
    forall k :: k in m ==> k != [] && m[k] != []
  }

  ghost predicate NoEmptyItems(scan: seq<Item>) {
    forall i :: 0 <= i < |scan| ==> scan[i].key != [] && scan[i].value != []
  }

  ghost predicate Panics(o: Output) {
    o == Got(GetPanics) || o == Stepped(NextPanics)
  }

  ghost predicate Sound(p: Private) {
    && NoEmpties(p.m)
    && (forall i :: 0 <= i < |p.scans| ==> NoEmptyItems(p.scans[i]))
    && forall i :: 0 <= i < |p.outs| ==> !Panics(p.outs[i])
  }

  lemma SoundStep(p: Private, op: Op)
    requires Sound(p) && (op.Put? ==> op.key != [] && op.value != [])
    ensures Sound(PrivateStep(p, op))
  {
    hide Listing;
    if op.OpenScan? {
      var keys := Listing(p.m, op.raw, op.reverse);
      SnapshotKeys(p.m, op.raw, op.reverse);
      forall i | 0 <= i < |keys| ensures keys[i] != [] && p.m[keys[i]] != [] {
        assert keys[i] in keys;
      }
      assert NoEmptyItems(Snapshot(p.m, op.raw, op.reverse));
    } else if op.Step? && op.scan < |p.scans| {
      assert NoEmptyItems(Rest(p.scans[op.scan]));
    }
  }

  /** With non-empty keys and values, stored at first and written later, no operation panics. */
  lemma {:induction false} NothingPanics(m: map<Bytes, Bytes>, ops: seq<Op>, who: Who)
    requires NoEmpties(m) && forall i :: 0 <= i < |ops| && ops[i].Put? ==> ops[i].key != [] && ops[i].value != []
    ensures Sound(PrivateRun(m, ops, who))
  {
    hide PrivateStep, Sound;
    if ops == [] {
      SoundStart(m);
    } else {
      var n := |ops| - 1;
      NothingPanics(m, ops[..n], who);
      SoundStep(PrivateRun(m, ops[..n], who), ops[n]);
    }
  }

  lemma SoundStart(m: map<Bytes, Bytes>)
    requires NoEmpties(m)
    ensures Sound(Private(m, [], []))
  {
  }

  // ----- the shared store

  function StoreStep(data: map<Bytes, Bytes>, prefix: Bytes, op: Op): map<Bytes, Bytes> {
    match op
    case Put(_, k, v) => data[prefix + k := v]
    case Remove(_, k) => data - {prefix + k}
    case _ => data
  }

  function PrefixOf(first: Bytes, second: Bytes, who: Who): Bytes {
    if who.First? then first else second
  }

  /** The shared store after both participants' operations. */
  function StoreAfter(data: map<Bytes, Bytes>, first: Bytes, second: Bytes, ops: seq<Op>): map<Bytes, Bytes> {
    if ops == [] then data
    else
      var n := |ops| - 1;
      StoreStep(StoreAfter(data, first, second, ops[..n]), PrefixOf(first, second, ops[n].who), ops[n])
  }

  /** Every scan is opened at a moment when no stored key is stray for it. */
  ghost predicate ScansFaithful(data: map<Bytes, Bytes>, first: Bytes, second: Bytes, ops: seq<Op>) {
    forall i :: 0 <= i < |ops| && ops[i].OpenScan? ==>
      ScanFaithful(StoreAfter(data, first, second, ops[..i]), PrefixOf(first, second, ops[i].who) + ops[i].raw)
  }

  ghost predicate KeysAtLeast(data: map<Bytes, Bytes>, n: nat) {
    forall k :: k in data ==> |k| >= n
  }

  lemma {:induction false} LongKeysStay(data: map<Bytes, Bytes>, first: Bytes, second: Bytes, ops: seq<Op>, n: nat)
    requires KeysAtLeast(data, n)
    requires forall i :: 0 <= i < |ops| && ops[i].Put? ==> |PrefixOf(first, second, ops[i].who) + ops[i].key| >= n
    ensures KeysAtLeast(StoreAfter(data, first, second, ops), n)
  {
    if ops != [] {
      LongKeysStay(data, first, second, ops[..|ops| - 1], n);
    }
  }

  /** The scans of a run are faithful when every scanned prefix is clean, or no longer than any key that
      is stored at first or written later. */
  lemma FaithfulRun(data: map<Bytes, Bytes>, first: Bytes, second: Bytes, ops: seq<Op>, n: nat)
    requires KeysAtLeast(data, n)
    requires forall i :: 0 <= i < |ops| && ops[i].Put? ==> |PrefixOf(first, second, ops[i].who) + ops[i].key| >= n
    requires forall i :: 0 <= i < |ops| && ops[i].OpenScan? ==>
      var p := PrefixOf(first, second, ops[i].who) + ops[i].raw;
      CleanPrefix(p) || 0 < |p| <= n
    ensures ScansFaithful(data, first, second, ops)
  {
    hide CleanPrefix, ScanFaithful, StoreAfter;
    forall i | 0 <= i < |ops| && ops[i].OpenScan?
      ensures ScanFaithful(StoreAfter(data, first, second, ops[..i]), PrefixOf(first, second, ops[i].who) + ops[i].raw)
    {
      LongKeysStay(data, first, second, ops[..i], n);
      FaithfulPrefix(StoreAfter(data, first, second, ops[..i]), PrefixOf(first, second, ops[i].who) + ops[i].raw);
    }
  }
}
