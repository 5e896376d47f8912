/** The in-memory ordered store and its iterators (ffi/votetree/mem_kv.go), and the prefixing proxy
    in front of it (ffi/votetree/kv_callbacks.go). */
module KvStore {
  import opened Field
  import opened ByteStrings
  import opened PrefixScan
  import opened PrefixedView
  import opened PrivateMap

  type Data = map<Bytes, Bytes>

  // ----- sorting keys

  method SortStrings(keys: seq<Bytes>) returns (r: seq<Bytes>)
    requires Distinct(keys)
    ensures Ascending(r) && forall k :: k in r <==> k in keys
  {
    hide InsertKey, Less;
    r := [];
    for i := 0 to |keys|
      invariant Ascending(r) && forall k :: k in r <==> k in keys[..i]
    {
      assert keys[..i + 1] == keys[..i] + [keys[i]];
      InsertSorted(r, keys[i]);
      InsertContents(r, keys[i]);
      r := InsertKey(r, keys[i]);
    }
    assert keys[..|keys|] == keys;
  }

  method ReverseInPlace(a: array<Bytes>)
    modifies a
    ensures forall k :: 0 <= k < a.Length ==> a[k] == old(a[a.Length - 1 - k])
  {
    var i, j := 0, a.Length - 1;
    while i < j
      invariant 0 <= i && i + j == a.Length - 1 && i <= j + 1
      invariant forall k :: 0 <= k < i || j < k < a.Length ==> a[k] == old(a[a.Length - 1 - k])
      invariant forall k :: i <= k <= j ==> a[k] == old(a[k])
    {
      a[i], a[j] := a[j], a[i];
      i, j := i + 1, j - 1;
    }
  }

  // ----- store and iterator

  class MemIterator {
    const keys: seq<Bytes>
    const data: Data
    var pos: nat

    ghost predicate Valid()
      reads this
    {
      pos <= |keys| && forall i :: 0 <= i < |keys| ==> keys[i] in data
    }

    constructor (keys: seq<Bytes>, data: Data)
      requires forall i :: 0 <= i < |keys| ==> keys[i] in data
      ensures Valid() && this.keys == keys && this.data == data && pos == 0
    {
      this.keys, this.data, pos := keys, data, 0;
    }

    /** The keys still to come. */
    ghost function Remaining(): seq<Bytes>
      reads this
      requires Valid()
    {
      keys[pos..]
    }

    method Next()
      requires Valid()
      modifies this
      ensures Valid() && Remaining() == if old(Remaining()) == [] then [] else old(Remaining())[1..]
    {
      if pos < |keys| {
        pos := pos + 1;
      }
    }
  }

  class MemKVStore {
    var data: Data

    constructor ()
      ensures data == map[]
    {
      data := map[];
    }

    method Get(key: Bytes) returns (v: Option<Bytes>)
      ensures v == if key in data then Some(data[key]) else None
    {
      v := if key in data then Some(data[key]) else None;
    }

    method Set(key: Bytes, value: Bytes)
      modifies this
      ensures data == old(data)[key := value]
    {
      data := data[key := value];
    }

    method Delete(key: Bytes)
      modifies this
      ensures data == old(data) - {key}
    {
      data := data - {key};
    }

    /** Collects the keys of the range in the map's own order, then sorts them. */
    method SortedKeys(start: Option<Bytes>, end: Option<Bytes>) returns (keys: seq<Bytes>)
      ensures Lists(keys, data, start, end, false)
    {
      hide Less, InRange;
      keys := [];
      var todo := data.Keys;
      while todo != {}
        invariant todo <= data.Keys && Distinct(keys)
        invariant forall k :: k in keys <==> k in data && k !in todo && InRange(k, start, end)
        decreases todo
      {
        var k :| k in todo;
        todo := todo - {k};
        if InRange(k, start, end) {
          keys := keys + [k];
        }
      }
      keys := SortStrings(keys);
    }

    method Iterator(start: Option<Bytes>, end: Option<Bytes>) returns (it: MemIterator)
      ensures fresh(it) && it.Valid() && it.pos == 0 && it.data == data && Lists(it.keys, data, start, end, false)
    {
      var keys := SortedKeys(start, end);
      it := new MemIterator(keys, data);
    }

    method ReverseIterator(start: Option<Bytes>, end: Option<Bytes>) returns (it: MemIterator)
      ensures fresh(it) && it.Valid() && it.pos == 0 && it.data == data && Lists(it.keys, data, start, end, true)
    {
      var keys := SortedKeys(start, end);
      var a := new Bytes[|keys|](i requires 0 <= i < |keys| => keys[i]);
      ReverseInPlace(a);
      ReversedLists(keys, a[..], data, start, end);
      it := new MemIterator(a[..], data);
    }
  }

  // ----- the proxy

  class KvStoreProxy {
    var current: MemKVStore
    const prefix: Bytes

    constructor (current: MemKVStore, prefix: Bytes)
      ensures this.current == current && this.prefix == prefix
    {
      this.current, this.prefix := current, prefix;
    }

    method SetStore(s: MemKVStore)
      modifies this
      ensures current == s
    {
      current := s;
    }

    function PrefixKey(key: Bytes): (k: Bytes)
      ensures k == prefix + key
    {
      if |prefix| == 0 then key else prefix + key
    }

    /** A lookup in the private map, except that an empty value cannot be handed out. */
    method SvKvGet(rawKey: Bytes) returns (r: GetOutcome)
      ensures var view := View(current.data, prefix);
        r == if rawKey !in view then NotFound else if view[rawKey] == [] then GetPanics else Found(view[rawKey])
    {
      var v := current.Get(PrefixKey(rawKey));
      if v.None? {
        return NotFound;
      }
      if |v.value| == 0 {
        return GetPanics;
      }
      return Found(v.value);
    }

    method SvKvSet(rawKey: Bytes, val: Bytes)
      modifies current
      ensures current.data == old(current.data)[prefix + rawKey := val]
      ensures View(current.data, prefix) == old(View(current.data, prefix))[rawKey := val]
      ensures forall other :: Apart(prefix, other) ==> View(current.data, other) == old(View(current.data, other))
    {
      ghost var before := current.data;
      current.Set(PrefixKey(rawKey), val);
      ViewSet(before, prefix, rawKey, val);
    }

    method SvKvDelete(rawKey: Bytes)
      modifies current
      ensures current.data == old(current.data) - {prefix + rawKey}
      ensures View(current.data, prefix) == old(View(current.data, prefix)) - {rawKey}
      ensures forall other :: Apart(prefix, other) ==> View(current.data, other) == old(View(current.data, other))
    {
      ghost var before := current.data;
      current.Delete(PrefixKey(rawKey));
      ViewDelete(before, prefix, rawKey);
    }

    /** Opens a scan over a snapshot. */
    method SvKvIterCreate(rawPrefix: Bytes, reverse: bool) returns (it: MemIterator)
      ensures fresh(it) && it.Valid() && it.pos == 0 && it.data == current.data
      ensures Lists(it.keys, current.data, Some(prefix + rawPrefix), EndKey(prefix + rawPrefix), reverse)
    {
      var p := PrefixKey(rawPrefix);
      var end := ComputeEnd(p);
      if reverse {
        it := current.ReverseIterator(Some(p), end);
      } else {
        it := current.Iterator(Some(p), end);
      }
    }

    /** Hands out the next entry with the prefix stripped; an empty key or value panics. */
    method SvKvIterNext(it: MemIterator) returns (r: NextOutcome)
      requires it.Valid()
      modifies it
      ensures it.Valid()
      ensures old(it.Remaining()) == [] ==> r == Exhausted && it.Remaining() == []
      ensures old(it.Remaining()) != [] ==>
        && it.Remaining() == old(it.Remaining())[1..]
        && var full := old(it.Remaining())[0];
        && full in it.data
        && var key := Strip(prefix, full);
        r == if key == [] || it.data[full] == [] then NextPanics else Entry(key, it.data[full])
    {
      if it.pos >= |it.keys| {
        return Exhausted;
      }
      var key := it.keys[it.pos];
      var val := it.data[key];
      it.Next();
      if |prefix| > 0 && |key| >= |prefix| {
        key := key[|prefix|..];
      }
      if |key| == 0 || |val| == 0 {
        return NextPanics;
      }
      return Entry(key, val);
    }
  }
}
