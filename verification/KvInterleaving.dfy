/** Two round proxies over one shared store: each behaves as if it had a map of its own. */
module KvInterleaving {
  import opened Field
  import opened ByteStrings
  import opened PrefixScan
  import opened PrefixedView
  import opened PrivateMap
  import opened KvStore

  /** What an open iterator has yet to hand out. */
  ghost function Pending(it: MemIterator, prefix: Bytes): seq<Item>
    requires it.Valid()
    reads it
  {
    Items(prefix, it.Remaining(), it.data)
  }

  ghost predicate Tracks(its: seq<MemIterator>, scans: seq<seq<Item>>, prefix: Bytes)
    reads its
  {
    && |its| == |scans|
    && forall i :: 0 <= i < |its| ==> its[i].Valid() && Pending(its[i], prefix) == scans[i]
  }

  ghost predicate AllDifferent(its: seq<MemIterator>) {
    forall i, j :: 0 <= i < j < |its| ==> its[i] != its[j]
  }

  method StepScan(p: KvStoreProxy, it: MemIterator) returns (out: NextOutcome)
    requires it.Valid()
    modifies it
    ensures it.Valid() && out == FirstOf(old(Pending(it, p.prefix)))
    ensures Pending(it, p.prefix) == Rest(old(Pending(it, p.prefix)))
  {
    out := p.SvKvIterNext(it);
  }

  method Open(p: KvStoreProxy, raw: Bytes, reverse: bool) returns (it: MemIterator)
    requires ScanFaithful(p.current.data, p.prefix + raw)
    ensures fresh(it) && it.Valid()
    ensures Pending(it, p.prefix) == Snapshot(View(p.current.data, p.prefix), raw, reverse)
  {
    it := p.SvKvIterCreate(raw, reverse);
    assert it.Remaining() == it.keys;
    SnapshotExact(p.current.data, p.prefix, raw, reverse, it.keys);
  }

  /** One operation through a proxy is that operation on the private map. */
  method Perform(p: KvStoreProxy, its: seq<MemIterator>, op: Op, ghost spec: Private)
    returns (open: seq<MemIterator>, out: Output)
    requires AllDifferent(its) && Tracks(its, spec.scans, p.prefix) && spec.m == View(p.current.data, p.prefix)
    requires op.OpenScan? ==> ScanFaithful(p.current.data, p.prefix + op.raw)
    modifies p.current, its
    ensures p.current.data == StoreStep(old(p.current.data), p.prefix, op)
    ensures View(p.current.data, p.prefix) == PrivateStep(spec, op).m
    ensures Tracks(open, PrivateStep(spec, op).scans, p.prefix) && PrivateStep(spec, op).outs == spec.outs + [out]
    ensures AllDifferent(open) && forall i :: 0 <= i < |open| ==> open[i] in its || fresh(open[i])
    ensures forall other :: Apart(p.prefix, other) ==> View(p.current.data, other) == old(View(p.current.data, other))
  {
    hide View, Snapshot, Items, ScanFaithful, Apart;
    open, out := its, Done;
    match op {
      case Put(_, k, v) =>
        p.SvKvSet(k, v);
      case Remove(_, k) =>
        p.SvKvDelete(k);
      case Get(_, k) =>
        var got := p.SvKvGet(k);
        out := Got(got);
      case OpenScan(_, raw, reverse) =>
        var it := Open(p, raw, reverse);
        open := its + [it];
      case Step(_, n) =>
        if n >= |its| {
          out := NoSuchScan;
        } else {
          var next := StepScan(p, its[n]);
          out := Stepped(next);
        }
    }
  }

  /** The proxy, its open iterators and its outputs so far are where the private run is. */
  ghost predicate Agrees(p: KvStoreProxy, its: seq<MemIterator>, outs: seq<Output>, run: Private)
    reads p, p.current, its
  {
    && View(p.current.data, p.prefix) == run.m && Tracks(its, run.scans, p.prefix) && outs == run.outs
    && AllDifferent(its)
  }

  /** An operation through one proxy, unnoticed by another whose prefix is apart. */
  method Advance(p: KvStoreProxy, its: seq<MemIterator>, outs: seq<Output>, op: Op, ghost run: Private,
                 ghost other: KvStoreProxy, ghost otherIts: seq<MemIterator>, ghost otherOuts: seq<Output>,
                 ghost otherRun: Private)
    returns (open: seq<MemIterator>, outs': seq<Output>)
    requires Agrees(p, its, outs, run) && Agrees(other, otherIts, otherOuts, otherRun)
    requires other.current == p.current && Apart(p.prefix, other.prefix)
    requires forall i :: 0 <= i < |otherIts| ==> otherIts[i] !in its
    requires op.OpenScan? ==> ScanFaithful(p.current.data, p.prefix + op.raw)
    modifies p.current, its
    ensures Agrees(p, open, outs', PrivateStep(run, op)) && Agrees(other, otherIts, otherOuts, otherRun)
    ensures p.current.data == StoreStep(old(p.current.data), p.prefix, op)
    ensures forall i :: 0 <= i < |open| ==> open[i] in its || fresh(open[i])
  {
    hide View, PrivateStep, ScanFaithful, StoreStep, Apart, Items;
    var out;
    open, out := Perform(p, its, op, run);
    outs' := outs + [out];
  }

  lemma NothingYet(m: map<Bytes, Bytes>, ops: seq<Op>, who: Who)
    ensures PrivateRun(m, ops[..0], who) == Private(m, [], [])
  {
  }

  lemma RunOne(m: map<Bytes, Bytes>, ops: seq<Op>, i: nat, who: Who)
    requires i < |ops|
    ensures PrivateRun(m, ops[..i + 1], who) ==
      if ops[i].who == who then PrivateStep(PrivateRun(m, ops[..i], who), ops[i]) else PrivateRun(m, ops[..i], who)
  {
    hide PrivateStep;
    assert ops[..i + 1][..i] == ops[..i];
  }

  lemma StoreOne(data: map<Bytes, Bytes>, first: Bytes, second: Bytes, ops: seq<Op>, i: nat)
    requires i < |ops|
    ensures StoreAfter(data, first, second, ops[..i + 1])
      == StoreStep(StoreAfter(data, first, second, ops[..i]), PrefixOf(first, second, ops[i].who), ops[i])
  {
    hide StoreStep;
    assert ops[..i + 1][..i] == ops[..i];
  }

  /** After any interleaving of gets, writes, deletions, scan openings and scan steps through two proxies
      whose prefixes are apart, each participant's outputs and view are those of its own operations on a
      private ordered map: scans hand out stripped keys in order with the values as of their opening. */
  method RunInterleaved(a: KvStoreProxy, b: KvStoreProxy, ops: seq<Op>)
    returns (outsA: seq<Output>, outsB: seq<Output>)
    requires a.current == b.current && Apart(a.prefix, b.prefix)
    requires ScansFaithful(a.current.data, a.prefix, b.prefix, ops)
    modifies a.current
    ensures outsA == PrivateRun(old(View(a.current.data, a.prefix)), ops, First).outs
    ensures outsB == PrivateRun(old(View(b.current.data, b.prefix)), ops, Second).outs
    ensures View(a.current.data, a.prefix) == PrivateRun(old(View(a.current.data, a.prefix)), ops, First).m
    ensures View(b.current.data, b.prefix) == PrivateRun(old(View(b.current.data, b.prefix)), ops, Second).m
  {
    hide View, PrivateRun, PrivateStep, ScanFaithful, Items, Agrees, StoreAfter, StoreStep;
    ghost var viewA, viewB := View(a.current.data, a.prefix), View(b.current.data, b.prefix);
    ghost var start := a.current.data;
    var itsA: seq<MemIterator>, itsB: seq<MemIterator> := [], [];
    outsA, outsB := [], [];
    Fresh(a, viewA, ops, First);
    Fresh(b, viewB, ops, Second);
    assert StoreAfter(start, a.prefix, b.prefix, ops[..0]) == start by { NoStep(start, a.prefix, b.prefix, ops); }
    for i := 0 to |ops|
      invariant a.current.data == StoreAfter(start, a.prefix, b.prefix, ops[..i])
      invariant Agrees(a, itsA, outsA, PrivateRun(viewA, ops[..i], First))
      invariant Agrees(b, itsB, outsB, PrivateRun(viewB, ops[..i], Second))
      invariant forall k :: 0 <= k < |itsA| ==> fresh(itsA[k]) && itsA[k] !in itsB
      invariant forall k :: 0 <= k < |itsB| ==> fresh(itsB[k])
    {
      RunOne(viewA, ops, i, First);
      RunOne(viewB, ops, i, Second);
      StoreOne(start, a.prefix, b.prefix, ops, i);
      ghost var runA, runB := PrivateRun(viewA, ops[..i], First), PrivateRun(viewB, ops[..i], Second);
      if ops[i].who.First? {
        itsA, outsA := Advance(a, itsA, outsA, ops[i], runA, b, itsB, outsB, runB);
      } else {
        itsB, outsB := Advance(b, itsB, outsB, ops[i], runB, a, itsA, outsA, runA);
      }
    }
    assert ops[..|ops|] == ops;
    Finished(a, itsA, outsA, PrivateRun(viewA, ops, First));
    Finished(b, itsB, outsB, PrivateRun(viewB, ops, Second));
  }

  lemma Fresh(p: KvStoreProxy, view: map<Bytes, Bytes>, ops: seq<Op>, who: Who)
    requires view == View(p.current.data, p.prefix)
    ensures Agrees(p, [], [], PrivateRun(view, ops[..0], who))
  {
    NothingYet(view, ops, who);
  }

  lemma NoStep(data: map<Bytes, Bytes>, first: Bytes, second: Bytes, ops: seq<Op>)
    ensures StoreAfter(data, first, second, ops[..0]) == data
  {
  }

  lemma Finished(p: KvStoreProxy, its: seq<MemIterator>, outs: seq<Output>, run: Private)
    requires Agrees(p, its, outs, run)
    ensures View(p.current.data, p.prefix) == run.m && outs == run.outs
  {
  }
}
