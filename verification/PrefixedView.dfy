/** What a proxy with a prefix shows of a shared ordered store: a private ordered map. */
module PrefixedView {
  import opened Field
  import opened ByteStrings
  import opened PrefixScan

  // ----- the order

  lemma {:induction false} LessTotal(a: Bytes, b: Bytes)
    ensures a != b ==> Less(a, b) || Less(b, a)
    ensures !(Less(a, b) && Less(b, a)) && !Less(a, a)
  {
    if a != [] && b != [] {
      LessTotal(a[1..], b[1..]);
      assert a == [a[0]] + a[1..] && b == [b[0]] + b[1..];
    }
    if a != [] {
      LessTotal(a[1..], a[1..]);
    }
  }

  lemma {:induction false} LessTransitive(a: Bytes, b: Bytes, c: Bytes)
    requires Less(a, b) && Less(b, c)
    ensures Less(a, c)
  {
    if a != [] && a[0] == b[0] && b[0] == c[0] {
      LessTransitive(a[1..], b[1..], c[1..]);
    }
  }

  /** A common prefix does not change the order. */
  lemma {:induction false} LessStrip(p: Bytes, a: Bytes, b: Bytes)
    ensures Less(p + a, p + b) <==> Less(a, b)
  {
    if p == [] {
      assert p + a == a && p + b == b;
    } else {
      LessStrip(p[1..], a, b);
      assert (p + a)[1..] == p[1..] + a && (p + b)[1..] == p[1..] + b;
    }
  }

  ghost predicate Distinct(keys: seq<Bytes>) {
    forall i, j :: 0 <= i < j < |keys| ==> keys[i] != keys[j]
  }

  ghost predicate Ascending(keys: seq<Bytes>) {
    forall i, j :: 0 <= i < j < |keys| ==> Less(keys[i], keys[j])
  }

  ghost predicate Descending(keys: seq<Bytes>) {
    forall i, j :: 0 <= i < j < |keys| ==> Less(keys[j], keys[i])
  }

  ghost predicate InOrder(keys: seq<Bytes>, reverse: bool) {
    if reverse then Descending(keys) else Ascending(keys)
  }

  /** The keys of the map inside the range, in order. */
  ghost predicate Lists(keys: seq<Bytes>, data: map<Bytes, Bytes>, start: Option<Bytes>, end: Option<Bytes>,
                        reverse: bool) {
    && InOrder(keys, reverse)
    && forall k :: k in keys <==> k in data && InRange(k, start, end)
  }

  lemma ReversedLists(keys: seq<Bytes>, rev: seq<Bytes>, data: map<Bytes, Bytes>, start: Option<Bytes>,
                      end: Option<Bytes>)
    requires Lists(keys, data, start, end, false) && |rev| == |keys|
    requires forall k :: 0 <= k < |keys| ==> rev[k] == keys[|keys| - 1 - k]
    ensures Lists(rev, data, start, end, true)
  {
    hide Less, InRange;
    var n := |keys|;
    forall k ensures k in rev <==> k in keys {
      if k in rev {
        var i :| 0 <= i < n && rev[i] == k;
        assert keys[n - 1 - i] == k;
      }
      if k in keys {
        var i :| 0 <= i < n && keys[i] == k;
        assert rev[n - 1 - i] == k;
      }
    }
  }

  // ----- the private map

  function Strip(prefix: Bytes, key: Bytes): Bytes {
    if |prefix| > 0 && |key| >= |prefix| then key[|prefix|..] else key
  }

  lemma StripPrefixed(prefix: Bytes, r: Bytes)
    ensures Strip(prefix, prefix + r) == r && StartsWith(prefix + r, prefix)
  {
    assert (prefix + r)[..|prefix|] == prefix && (prefix + r)[|prefix|..] == r;
  }

  lemma PrefixedStrip(prefix: Bytes, k: Bytes)
    requires StartsWith(k, prefix)
    ensures prefix + Strip(prefix, k) == k
  {
  }

  ghost function View(data: map<Bytes, Bytes>, prefix: Bytes): (v: map<Bytes, Bytes>)
    ensures forall r :: r in v <==> prefix + r in data
    ensures forall r :: r in v ==> v[r] == data[prefix + r]
  {
    var raw := set k | k in data && StartsWith(k, prefix) :: Strip(prefix, k);
    assert forall k :: k in data && StartsWith(k, prefix) ==> prefix + Strip(prefix, k) == k;
    assert forall r :: prefix + r in data ==> r in raw by {
      forall r | prefix + r in data ensures r in raw {
        StripPrefixed(prefix, r);
      }
    }
    map r | r in raw :: data[prefix + r]
  }

  /** Neither prefix begins with the other. */
  ghost predicate Apart(p: Bytes, q: Bytes) {
    !StartsWith(p, q) && !StartsWith(q, p)
  }

  lemma ApartKeys(p: Bytes, q: Bytes, r: Bytes, t: Bytes)
    requires Apart(p, q)
    ensures p + r != q + t
  {
    assert (p + r)[..|p|] == p && (q + t)[..|q|] == q;
    assert |p| <= |q| ==> (q + t)[..|p|] == q[..|p|];
    assert |q| <= |p| ==> (p + r)[..|q|] == p[..|q|];
  }

  lemma SameView(d: map<Bytes, Bytes>, e: map<Bytes, Bytes>, q: Bytes)
    requires forall t :: (q + t in d <==> q + t in e) && (q + t in d ==> d[q + t] == e[q + t])
    ensures View(d, q) == View(e, q)
  {
    var a, b := View(d, q), View(e, q);
    assert forall t :: t in a ==> q + t in d;
    assert a.Keys == b.Keys;
  }

  /** A write through one prefix is a write to that private map and to no other. */
  lemma ViewSet(data: map<Bytes, Bytes>, p: Bytes, r: Bytes, v: Bytes)
    ensures View(data[p + r := v], p) == View(data, p)[r := v]
    ensures forall q :: Apart(p, q) ==> View(data[p + r := v], q) == View(data, q)
  {
    var after := data[p + r := v];
    assert View(after, p) == View(data, p)[r := v] by {
      assert forall t :: p + t == p + r ==> t == (p + t)[|p|..] == r;
    }
    forall q | Apart(p, q) ensures View(after, q) == View(data, q) {
      forall t ensures q + t != p + r {
        ApartKeys(p, q, r, t);
      }
      SameView(after, data, q);
    }
  }

  lemma ViewDelete(data: map<Bytes, Bytes>, p: Bytes, r: Bytes)
    ensures View(data - {p + r}, p) == View(data, p) - {r}
    ensures forall q :: Apart(p, q) ==> View(data - {p + r}, q) == View(data, q)
  {
    var after := data - {p + r};
    assert View(after, p) == View(data, p) - {r} by {
      assert forall t :: p + t == p + r ==> t == (p + t)[|p|..] == r;
    }
    forall q | Apart(p, q) ensures View(after, q) == View(data, q) {
      forall t ensures q + t != p + r {
        ApartKeys(p, q, r, t);
      }
      SameView(after, data, q);
    }
  }

  // ----- scans

  lemma StartsJoin(p: Bytes, raw: Bytes, k: Bytes)
    ensures StartsWith(k, p + raw) <==> StartsWith(k, p) && StartsWith(Strip(p, k), raw)
  {
    if |p| + |raw| <= |k| {
      assert k[..|p| + |raw|] == k[..|p|] + k[|p|..][..|raw|];
    }
    if StartsWith(k, p) && StartsWith(Strip(p, k), raw) {
      assert Strip(p, k) == k[|p|..];
    }
  }

  function StripAll(p: Bytes, keys: seq<Bytes>): (rs: seq<Bytes>)
    ensures |rs| == |keys|
  {
    seq(|keys|, i requires 0 <= i < |keys| => Strip(p, keys[i]))
  }

  /** A scan of this prefix sees no stray key. An empty prefix scans nothing. */
  ghost predicate ScanFaithful(data: map<Bytes, Bytes>, p: Bytes) {
    if p == [] then data == map[] else forall k :: k in data ==> !Stray(k, p)
  }

  /** Two conditions on the inputs that rule stray keys out. */
  lemma FaithfulPrefix(data: map<Bytes, Bytes>, p: Bytes)
    requires CleanPrefix(p) || (p != [] && forall k :: k in data ==> |k| >= |p|)
    ensures ScanFaithful(data, p)
  {
    if CleanPrefix(p) {
      forall k | k in data ensures !Stray(k, p) {
        NoStray(k, p);
      }
    }
  }

  lemma FaithfulRange(data: map<Bytes, Bytes>, p: Bytes, k: Bytes)
    requires ScanFaithful(data, p) && k in data
    ensures InRange(k, Some(p), EndKey(p)) <==> StartsWith(k, p)
  {
    RangeExact(k, p);
  }

  /** A scan through the proxy lists the private map: exactly its keys that begin with the requested
      prefix, in ascending or descending order of the stripped keys. */
  lemma ScanListsView(data: map<Bytes, Bytes>, p: Bytes, raw: Bytes, reverse: bool, keys: seq<Bytes>)
    requires ScanFaithful(data, p + raw)
    requires Lists(keys, data, Some(p + raw), EndKey(p + raw), reverse)
    ensures InOrder(StripAll(p, keys), reverse)
    ensures forall r :: r in StripAll(p, keys) <==> r in View(data, p) && StartsWith(r, raw)
    ensures forall i :: 0 <= i < |keys| ==>
      Strip(p, keys[i]) in View(data, p) && View(data, p)[Strip(p, keys[i])] == data[keys[i]]
  {
    hide Less, InRange, EndKey, CleanPrefix, StartsWith, Strip, ScanFaithful;
    var rs := StripAll(p, keys);
    forall i | 0 <= i < |keys|
      ensures p + rs[i] == keys[i] && StartsWith(rs[i], raw)
    {
      assert keys[i] in keys;
      FaithfulRange(data, p + raw, keys[i]);
      StartsJoin(p, raw, keys[i]);
      PrefixedStrip(p, keys[i]);
    }
    forall i, j | 0 <= i < j < |keys| ensures Less(rs[i], rs[j]) <==> Less(keys[i], keys[j])
      ensures Less(rs[j], rs[i]) <==> Less(keys[j], keys[i])
    {
      LessStrip(p, rs[i], rs[j]);
      LessStrip(p, rs[j], rs[i]);
    }
    forall r | r in View(data, p) && StartsWith(r, raw) ensures r in rs {
      StripPrefixed(p, r);
      StartsJoin(p, raw, p + r);
      FaithfulRange(data, p + raw, p + r);
      var i :| 0 <= i < |keys| && keys[i] == p + r;
      assert rs[i] == r;
    }
  }

  /** Order and contents determine a listing: a scan has only one possible outcome. */
  lemma {:induction false} ListingUnique(a: seq<Bytes>, b: seq<Bytes>)
    requires Ascending(a) && Ascending(b) && forall k :: k in a <==> k in b
    ensures a == b
  {
    hide Less;
    assert (a != [] ==> a[0] in a) && (b != [] ==> b[0] in b);
    if a != [] && b != [] {
      HeadsEqual(a, b);
      TailContents(a, b);
      TailContents(b, a);
      ListingUnique(a[1..], b[1..]);
      assert a == [a[0]] + a[1..] && b == [b[0]] + b[1..];
    }
  }

  lemma HeadsEqual(a: seq<Bytes>, b: seq<Bytes>)
    requires Ascending(a) && Ascending(b) && a != [] && b != [] && forall k :: k in a <==> k in b
    ensures a[0] == b[0]
  {
    hide Less;
    assert a[0] in b && b[0] in a;
    var i :| 0 <= i < |a| && a[i] == b[0];
    var j :| 0 <= j < |b| && b[j] == a[0];
    LessTotal(a[0], b[0]);
  }

  lemma TailContents(a: seq<Bytes>, b: seq<Bytes>)
    requires Ascending(a) && a != [] && b != [] && a[0] == b[0] && forall k :: k in a <==> k in b
    ensures forall k :: k in a[1..] ==> k in b[1..]
  {
    hide Less;
    forall k | k in a[1..] ensures k in b[1..] {
      var i :| 1 <= i < |a| && a[i] == k;
      assert Less(a[0], a[i]);
      LessTotal(a[0], a[0]);
      assert k in b;
      var j :| 0 <= j < |b| && b[j] == k;
      assert b[1..][j - 1] == k;
    }
  }
}
