/** Key order and the range a prefix scan asks for (svKvIterCreate in ffi/votetree/kv_callbacks.go). */
module PrefixScan {
  import opened Field
  import opened ByteStrings

  /** Byte-wise lexicographic order; a proper prefix comes first. */
  predicate Less(a: Bytes, b: Bytes) {
    b != [] && (a == [] || a[0] < b[0] || (a[0] == b[0] && Less(a[1..], b[1..])))
  }

  predicate StartsWith(k: Bytes, p: Bytes) {
    |p| <= |k| && k[..|p|] == p
  }

  function Zeros(n: nat): (z: Bytes)
    ensures |z| == n
  {
    seq(n, _ => 0)
  }

  predicate AllFF(p: Bytes) {
    forall i :: 0 <= i < |p| ==> p[i] == 255
  }

  /** The prefix plus one, as a number of its own width; None when it overflows. */
  function Increment(p: Bytes): (e: Option<Bytes>)
    ensures e.Some? ==> |e.value| == |p|
    ensures e.None? <==> AllFF(p)
  {
    if p == [] then None
    else
      var rest := Increment(p[1..]);
      assert p == [p[0]] + p[1..];
      if rest.Some? then Some([p[0]] + rest.value)
      else if p[0] < 255 then Some([p[0] + 1] + Zeros(|p| - 1))
      else None
  }

  /** The end of the scan. An empty prefix never enters the loop and leaves an empty, not an open, end. */
  function EndKey(p: Bytes): Option<Bytes> {
    if p == [] then Some([]) else Increment(p)
  }

  /** Whether the store's range [start, end) contains a key. */
  predicate InRange(k: Bytes, start: Option<Bytes>, end: Option<Bytes>) {
    && (start.Some? ==> !Less(k, start.value))
    && (end.Some? ==> Less(k, end.value))
  }

  /** Only 0xFF bytes after position i. */
  predicate FFAfter(p: Bytes, i: int)
    requires -1 <= i
  {
    forall j :: i < j < |p| ==> p[j] == 255
  }

  lemma {:induction false} IncrementAt(p: Bytes, i: nat)
    requires i < |p| && p[i] < 255 && FFAfter(p, i)
    ensures Increment(p) == Some(p[..i] + [p[i] + 1] + Zeros(|p| - i - 1))
  {
    var q := p[1..];
    if i == 0 {
      assert AllFF(q);
      assert p[..0] + [p[0] + 1] + Zeros(|p| - 1) == [p[0] + 1] + Zeros(|p| - 1);
    } else {
      IncrementAt(q, i - 1);
      assert [p[0]] + (q[..i - 1] + [p[i] + 1] + Zeros(|p| - i - 1)) == p[..i] + [p[i] + 1] + Zeros(|p| - i - 1);
    }
  }

  lemma IncrementedBuffer(p: Bytes, buf: Bytes, i: nat)
    requires i < |p| == |buf| && p[i] < 255 && FFAfter(p, i) && buf[i] == p[i] + 1
    requires buf[..i] == p[..i] && forall j :: i < j < |p| ==> buf[j] == 0
    ensures EndKey(p) == Some(buf)
  {
    IncrementAt(p, i);
    assert buf == p[..i] + [p[i] + 1] + Zeros(|p| - i - 1);
  }

  /** The in-place increment with carry. */
  method ComputeEnd(prefix: Bytes) returns (end: Option<Bytes>)
    ensures end == EndKey(prefix)
  {
    hide Increment, FFAfter;
    var n := |prefix|;
    var buf := new byte[n](i requires 0 <= i < n => prefix[i]);
    var i := n - 1;
    assert FFAfter(prefix, i) by { NothingAfter(prefix); }
    while i >= 0
      invariant -1 <= i < n && (n > 0 ==> i >= 0)
      invariant forall j :: 0 <= j <= i ==> buf[j] == prefix[j]
      invariant forall j :: i < j < n ==> buf[j] == 0
      invariant FFAfter(prefix, i)
    {
      // a byte wraps around
      buf[i] := if buf[i] == 255 then 0 else buf[i] + 1;
      if buf[i] != 0 {
        assert buf[..][..i] == prefix[..i];
        IncrementedBuffer(prefix, buf[..], i);
        return Some(buf[..]);
      }
      OneMoreFF(prefix, i);
      if i == 0 {
        return None;
      }
      i := i - 1;
    }
    return Some([]);
  }

  lemma NothingAfter(p: Bytes)
    ensures FFAfter(p, |p| - 1)
  {
  }

  lemma OneMoreFF(p: Bytes, i: nat)
    requires i < |p| && p[i] == 255 && FFAfter(p, i)
    ensures FFAfter(p, i - 1) && (i == 0 ==> EndKey(p) == None)
  {
    if i == 0 {
      assert AllFF(p);
    }
  }

  // ----- which keys the range contains

  lemma {:induction false} LessZeros(k: Bytes, n: nat)
    ensures Less(k, Zeros(n)) <==> |k| < n && k == Zeros(|k|)
  {
    if n > 0 && k != [] {
      assert Zeros(n)[1..] == Zeros(n - 1);
      LessZeros(k[1..], n - 1);
      assert k == [k[0]] + k[1..];
      assert Zeros(|k|) == [0] + Zeros(|k| - 1);
      assert Zeros(|k|)[1..] == Zeros(|k| - 1);
    }
  }

  /** A key that is in the range although it does not begin with the prefix: a proper prefix of the
      end key that reaches past the incremented byte. */
  predicate Stray(k: Bytes, p: Bytes) {
    && |k| < |p| && Increment(p).Some?
    && k == Increment(p).value[..|k|] && k != p[..|k|]
  }

  lemma SplitHead(k: Bytes, p: Bytes)
    requires k != [] && p != []
    ensures StartsWith(k, p) <==> k[0] == p[0] && StartsWith(k[1..], p[1..])
    ensures |k| <= |p| ==> (k == p[..|k|] <==> k[0] == p[0] && k[1..] == p[1..][..|k| - 1])
  {
    assert k == [k[0]] + k[1..] && p == [p[0]] + p[1..];
    if |p| <= |k| {
      assert k[1..][..|p| - 1] == k[..|p|][1..];
    }
    if |k| <= |p| {
      assert p[..|k|] == [p[0]] + p[1..][..|k| - 1];
    }
  }

  /** The range holds the keys that begin with the prefix, and the stray ones. */
  lemma {:induction false} RangeExact(k: Bytes, p: Bytes)
    ensures InRange(k, Some(p), Increment(p)) <==> StartsWith(k, p) || Stray(k, p)
  {
    if p != [] && k != [] {
      SplitHead(k, p);
      var rest := Increment(p[1..]);
      if |k| < |p| && Increment(p).Some? {
        SplitHead(k, Increment(p).value);
      }
      if k[0] == p[0] {
        RangeExact(k[1..], p[1..]);
        HeadEqual(k, p);
      } else if k[0] > p[0] && rest.None? {
        HeadAbove(k, p);
      }
    }
  }

  lemma HeadEqual(k: Bytes, p: Bytes)
    requires k != [] && p != [] && k[0] == p[0]
    ensures Stray(k, p) <==> Stray(k[1..], p[1..])
    ensures InRange(k, Some(p), Increment(p)) <==> InRange(k[1..], Some(p[1..]), Increment(p[1..]))
  {
    SplitHead(k, p);
    if |k| < |p| && Increment(p).Some? {
      SplitHead(k, Increment(p).value);
    }
    if Increment(p[1..]).Some? {
      assert Increment(p).value[1..] == Increment(p[1..]).value;
    }
  }

  lemma HeadAbove(k: Bytes, p: Bytes)
    requires k != [] && p != [] && k[0] > p[0] && Increment(p[1..]).None?
    ensures Stray(k, p) <==> InRange(k, Some(p), Increment(p))
  {
    var e := Increment(p).value;
    assert e == [p[0] + 1] + Zeros(|p| - 1);
    hide Increment, AllFF;
    assert e[1..] == Zeros(|p| - 1);
    LessZeros(k[1..], |p| - 1);
    LessByHead(k, p);
    LessByHead(k, e);
    hide Less, Zeros;
    if |k| < |p| {
      SplitHead(k, e);
      SplitHead(k, p);
      ZerosPrefix(|p| - 1, |k| - 1);
    }
  }

  lemma LessByHead(k: Bytes, p: Bytes)
    requires k != [] && p != []
    ensures Less(k, p) <==> k[0] < p[0] || (k[0] == p[0] && Less(k[1..], p[1..]))
  {
  }

  lemma ZerosPrefix(n: nat, m: nat)
    requires m <= n
    ensures Zeros(n)[..m] == Zeros(m)
  {
  }

  /** Among keys at least as long as a non-empty prefix the scan is exact. */
  lemma LongKeysExact(k: Bytes, p: Bytes)
    requires p != [] && |k| >= |p|
    ensures InRange(k, Some(p), EndKey(p)) <==> StartsWith(k, p)
  {
    RangeExact(k, p);
  }

  /** Whether the scan of a prefix is exact for every key. */
  predicate CleanPrefix(p: Bytes) {
    p != [] && (p[|p| - 1] != 255 || AllFF(p))
  }

  lemma {:induction false} CarryPosition(p: Bytes) returns (i: nat)
    requires !AllFF(p)
    ensures i < |p| && p[i] < 255 && FFAfter(p, i)
    decreases |p|
  {
    var n := |p| - 1;
    if p[n] < 255 {
      i := n;
    } else {
      i := CarryPosition(p[..n]);
      assert forall j :: i < j < n ==> p[..n][j] == p[j];
    }
  }

  /** The scan is exact for every key if and only if the prefix is not empty and either does not end
      in 0xFF or consists of nothing else. */
  lemma ExactForAllKeys(p: Bytes)
    ensures (forall k :: InRange(k, Some(p), EndKey(p)) <==> StartsWith(k, p)) <==> CleanPrefix(p)
  {
    if p == [] {
      assert !InRange([], Some(p), EndKey(p)) && StartsWith([], p);
    } else if CleanPrefix(p) {
      forall k ensures InRange(k, Some(p), EndKey(p)) <==> StartsWith(k, p) {
        RangeExact(k, p);
        NoStray(k, p);
      }
    } else {
      var i := CarryPosition(p);
      IncrementAt(p, i);
      var k := p[..i] + [p[i] + 1];
      var e := Increment(p).value;
      assert e[..|k|] == k;
      assert k[i] != p[i];
      RangeExact(k, p);
      assert InRange(k, Some(p), EndKey(p)) && !StartsWith(k, p);
    }
  }

  lemma NoStray(k: Bytes, p: Bytes)
    requires CleanPrefix(p)
    ensures !Stray(k, p)
  {
    if !AllFF(p) {
      var n := |p| - 1;
      IncrementAt(p, n);
      var e := Increment(p).value;
      assert |k| <= n ==> e[..|k|] == p[..|k|];
    }
  }
}
