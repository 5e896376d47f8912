/** Note commitment roots: the complete padded tree (sections 3.8 and 4.9 of the Zcash Protocol
    Specification) and its frontier (circuits/src/nc_root.rs). The hash is a parameter. */
module Merkle {
  import opened Field

  const DEPTH: nat := 32

  datatype Hasher<!H> = Hasher(combine: (nat, H, H) -> H, emptyLeaf: H)

  function Pow2(n: nat): (p: nat)
    ensures p >= 1
  {
    if n == 0 then 1 else 2 * Pow2(n - 1)
  }

  function EmptyRoot<H>(h: Hasher<H>, level: nat): H {
    if level == 0 then h.emptyLeaf
    else h.combine(level - 1, EmptyRoot(h, level - 1), EmptyRoot(h, level - 1))
  }

  // ----- the reference: a complete tree

  /** The root of a complete tree of depth d. */
  function FullRoot<H>(h: Hasher<H>, d: nat, leaves: seq<H>): H
    requires |leaves| == Pow2(d)
  {
    if d == 0 then leaves[0]
    else
      var half := Pow2(d - 1);
      h.combine(d - 1, FullRoot(h, d - 1, leaves[..half]), FullRoot(h, d - 1, leaves[half..]))
  }

  function Pad<H>(h: Hasher<H>, leaves: seq<H>, n: nat): (r: seq<H>)
    requires |leaves| <= n
    ensures |r| == n
  {
    leaves + seq(n - |leaves|, _ => h.emptyLeaf)
  }

  /** The root of the depth-d tree whose remaining leaves are empty. */
  function PaddedRoot<H>(h: Hasher<H>, d: nat, leaves: seq<H>): H
    requires |leaves| <= Pow2(d)
  {
    FullRoot(h, d, Pad(h, leaves, Pow2(d)))
  }

  lemma {:induction false} EmptyTree<H>(h: Hasher<H>, d: nat)
    ensures PaddedRoot(h, d, []) == EmptyRoot(h, d)
  {
    if d > 0 {
      var p, half := Pad(h, [], Pow2(d)), Pow2(d - 1);
      assert p[..half] == Pad(h, [], half) && p[half..] == Pad(h, [], half);
      EmptyTree(h, d - 1);
    }
  }

  /** A completed left half joins whatever is in the right half. */
  lemma JoinLeft<H>(h: Hasher<H>, d: nat, lo: seq<H>, rest: seq<H>)
    requires |lo| == Pow2(d) && |rest| <= Pow2(d)
    ensures PaddedRoot(h, d + 1, lo + rest) == h.combine(d, FullRoot(h, d, lo), PaddedRoot(h, d, rest))
  {
    var p := Pad(h, lo + rest, Pow2(d + 1));
    assert p[..Pow2(d)] == lo && p[Pow2(d)..] == Pad(h, rest, Pow2(d));
  }

  /** A tree that does not reach its right half has an empty right subtree. */
  lemma JoinEmpty<H>(h: Hasher<H>, d: nat, leaves: seq<H>)
    requires |leaves| <= Pow2(d)
    ensures PaddedRoot(h, d + 1, leaves) == h.combine(d, PaddedRoot(h, d, leaves), EmptyRoot(h, d))
  {
    var p := Pad(h, leaves, Pow2(d + 1));
    assert p[..Pow2(d)] == Pad(h, leaves, Pow2(d)) && p[Pow2(d)..] == Pad(h, [], Pow2(d));
    EmptyTree(h, d);
  }

  // ----- frontiers

  datatype CommitmentTree<H> = CommitmentTree(left: Option<H>, right: Option<H>, parents: seq<Option<H>>)

  /** Combining with the parents, from the given level upwards. */
  function Climb<H>(h: Hasher<H>, digest: H, level: nat, parents: seq<Option<H>>): H
    decreases |parents|
  {
    if parents == [] then digest
    else match parents[0]
      case Some(l) => Climb(h, h.combine(level, l, digest), level + 1, parents[1..])
      case None => Climb(h, h.combine(level, digest, EmptyRoot(h, level)), level + 1, parents[1..])
  }

  /** Filling the remaining levels with empty siblings. */
  function Fill<H>(h: Hasher<H>, digest: H, level: nat): H
    decreases DEPTH - level
  {
    if level >= DEPTH then digest else Fill(h, h.combine(level, digest, EmptyRoot(h, level)), level + 1)
  }

  function TreeRoot<H>(h: Hasher<H>, t: CommitmentTree<H>): H {
    var l := if t.left.Some? then t.left.value else h.emptyLeaf;
    var r := if t.right.Some? then t.right.value else EmptyRoot(h, 0);
    Fill(h, Climb(h, h.combine(0, l, r), 1, t.parents), 1 + |t.parents|)
  }

  method CommitmentTreeRoot<H>(h: Hasher<H>, t: CommitmentTree<H>) returns (digest: H)
    ensures digest == TreeRoot(h, t)
  {
    digest := if t.left.Some? then t.left.value else h.emptyLeaf;
    var height := 0;
    var rightVal := if t.right.Some? then t.right.value else EmptyRoot(h, height);
    digest := h.combine(height, digest, rightVal);
    height := height + 1;
    ghost var start := digest;
    for i := 0 to |t.parents|
      invariant height == 1 + i
      invariant Climb(h, start, 1, t.parents) == Climb(h, digest, height, t.parents[i..])
    {
      match t.parents[i] {
        case Some(leftSubtree) =>
          digest := h.combine(height, leftSubtree, digest);
        case None =>
          digest := h.combine(height, digest, EmptyRoot(h, height));
      }
      assert t.parents[i..][1..] == t.parents[i + 1..];
      height := height + 1;
    }
    ghost var top := digest;
    while height < DEPTH
      invariant Fill(h, top, 1 + |t.parents|) == Fill(h, digest, height)
      decreases DEPTH - height
    {
      digest := h.combine(height, digest, EmptyRoot(h, height));
      height := height + 1;
    }
  }

  /** The parents from the given level upwards hold, from right to left, the completed subtrees of hi. */
  ghost predicate ParentsHold<H>(h: Hasher<H>, parents: seq<Option<H>>, level: nat, hi: seq<H>)
    decreases |parents|
  {
    if parents == [] then hi == []
    else match parents[0]
      case None => ParentsHold(h, parents[1..], level + 1, hi)
      case Some(p) =>
        && |hi| >= Pow2(level)
        && p == FullRoot(h, level, hi[|hi| - Pow2(level)..])
        && ParentsHold(h, parents[1..], level + 1, hi[..|hi| - Pow2(level)])
  }

  function Tail<H>(t: CommitmentTree<H>): seq<H> {
    match t.left
    case None => []
    case Some(l) => if t.right.Some? then [l, t.right.value] else [l]
  }

  /** t is a frontier of the leaf sequence. Trailing empty parents are allowed. */
  ghost predicate IsFrontier<H>(h: Hasher<H>, t: CommitmentTree<H>, leaves: seq<H>) {
    var n := |Tail(t)|;
    && (t.left.None? ==> t.right.None? && leaves == [])
    && |leaves| >= n && leaves[|leaves| - n..] == Tail(t)
    && ParentsHold(h, t.parents, 1, leaves[..|leaves| - n])
  }

  lemma {:induction false} ClimbIsPadded<H>(h: Hasher<H>, parents: seq<Option<H>>, level: nat, hi: seq<H>, cur: seq<H>)
    requires ParentsHold(h, parents, level, hi) && |cur| <= Pow2(level)
    ensures |hi + cur| <= Pow2(level + |parents|)
    ensures Climb(h, PaddedRoot(h, level, cur), level, parents) == PaddedRoot(h, level + |parents|, hi + cur)
    decreases |parents|
  {
    if parents == [] {
      assert hi + cur == cur;
    } else {
      match parents[0]
      case None =>
        JoinEmpty(h, level, cur);
        ClimbIsPadded(h, parents[1..], level + 1, hi, cur);
      case Some(p) =>
        var n := |hi| - Pow2(level);
        JoinLeft(h, level, hi[n..], cur);
        ClimbIsPadded(h, parents[1..], level + 1, hi[..n], hi[n..] + cur);
        assert hi[..n] + (hi[n..] + cur) == hi + cur;
    }
  }

  lemma {:induction false} FillIsPadded<H>(h: Hasher<H>, level: nat, leaves: seq<H>)
    requires |leaves| <= Pow2(level) && level <= DEPTH
    ensures |leaves| <= Pow2(DEPTH)
    ensures Fill(h, PaddedRoot(h, level, leaves), level) == PaddedRoot(h, DEPTH, leaves)
    decreases DEPTH - level
  {
    if level < DEPTH {
      JoinEmpty(h, level, leaves);
      FillIsPadded(h, level + 1, leaves);
    }
  }

  lemma PairRoot<H>(h: Hasher<H>, t: CommitmentTree<H>)
    requires t.left.None? ==> t.right.None?
    ensures var l := if t.left.Some? then t.left.value else h.emptyLeaf;
            var r := if t.right.Some? then t.right.value else EmptyRoot(h, 0);
            |Tail(t)| <= Pow2(1) && PaddedRoot(h, 1, Tail(t)) == h.combine(0, l, r)
  {
    var p := Pad(h, Tail(t), Pow2(1));
    assert Pow2(1) == 2 && Pow2(0) == 1 && |p| == 2;
    assert FullRoot(h, 0, p[..1]) == p[0] && FullRoot(h, 0, p[1..]) == p[1];
  }

  /** The frontier form computes the root of the complete depth-32 tree. */
  lemma FrontierRoot<H>(h: Hasher<H>, t: CommitmentTree<H>, leaves: seq<H>)
    requires IsFrontier(h, t, leaves) && |t.parents| < DEPTH
    ensures |leaves| <= Pow2(DEPTH) && TreeRoot(h, t) == PaddedRoot(h, DEPTH, leaves)
  {
    hide PaddedRoot, FullRoot, Pow2, Pad;
    var n := |leaves| - |Tail(t)|;
    PairRoot(h, t);
    ClimbIsPadded(h, t.parents, 1, leaves[..n], Tail(t));
    assert leaves[..n] + Tail(t) == leaves;
    FillIsPadded(h, 1 + |t.parents|, leaves);
  }

  // ----- every leaf sequence has a frontier

  /** Putting a completed subtree into the parents, carrying like a binary counter. */
  function Carry<H>(h: Hasher<H>, parents: seq<Option<H>>, level: nat, digest: H): seq<Option<H>>
    decreases |parents|
  {
    if parents == [] then [Some(digest)]
    else match parents[0]
      case None => [Some(digest)] + parents[1..]
      case Some(p) => [None] + Carry(h, parents[1..], level + 1, h.combine(level, p, digest))
  }

  function Append<H>(h: Hasher<H>, t: CommitmentTree<H>, x: H): CommitmentTree<H> {
    if t.left.None? then t.(left := Some(x))
    else if t.right.None? then t.(right := Some(x))
    else CommitmentTree(Some(x), None, Carry(h, t.parents, 1, h.combine(0, t.left.value, t.right.value)))
  }

  function Frontier<H>(h: Hasher<H>, leaves: seq<H>): CommitmentTree<H> {
    if leaves == [] then CommitmentTree(None, None, [])
    else Append(h, Frontier(h, leaves[..|leaves| - 1]), leaves[|leaves| - 1])
  }

  ghost predicate Trimmed<H>(parents: seq<Option<H>>) {
    parents != [] ==> parents[|parents| - 1].Some?
  }

  lemma FullJoin<H>(h: Hasher<H>, d: nat, a: seq<H>, b: seq<H>)
    requires |a| == Pow2(d) && |b| == Pow2(d)
    ensures FullRoot(h, d + 1, a + b) == h.combine(d, FullRoot(h, d, a), FullRoot(h, d, b))
  {
    assert (a + b)[..Pow2(d)] == a && (a + b)[Pow2(d)..] == b;
  }

  lemma {:induction false} CarryHolds<H>(h: Hasher<H>, parents: seq<Option<H>>, level: nat, hi: seq<H>, lo: seq<H>)
    requires ParentsHold(h, parents, level, hi) && |lo| == Pow2(level) && Trimmed(parents)
    ensures ParentsHold(h, Carry(h, parents, level, FullRoot(h, level, lo)), level, hi + lo)
    ensures Trimmed(Carry(h, parents, level, FullRoot(h, level, lo)))
    decreases |parents|
  {
    var c := Carry(h, parents, level, FullRoot(h, level, lo));
    var all := hi + lo;
    assert all[|all| - Pow2(level)..] == lo && all[..|all| - Pow2(level)] == hi;
    if parents == [] {
      assert ParentsHold(h, [], level + 1, hi);
    } else {
      match parents[0]
      case None =>
        assert c[1..] == parents[1..];
      case Some(p) =>
        var n := |hi| - Pow2(level);
        FullJoin(h, level, hi[n..], lo);
        assert |hi[n..] + lo| == Pow2(level + 1);
        CarryHolds(h, parents[1..], level + 1, hi[..n], hi[n..] + lo);
        assert hi[..n] + (hi[n..] + lo) == all;
        assert c[1..] == Carry(h, parents[1..], level + 1, FullRoot(h, level + 1, hi[n..] + lo));
    }
  }

  lemma AppendIsFrontier<H>(h: Hasher<H>, t: CommitmentTree<H>, leaves: seq<H>, x: H)
    requires IsFrontier(h, t, leaves) && Trimmed(t.parents)
    requires t.left.None? ==> t.parents == []
    ensures IsFrontier(h, Append(h, t, x), leaves + [x]) && Trimmed(Append(h, t, x).parents)
  {
    var n := |leaves| - |Tail(t)|;
    var all := leaves + [x];
    if t.left.None? {
      assert all == [x] && all[..0] == leaves[..0];
    } else if t.right.None? {
      assert all[..n] == leaves[..n] && all[n..] == [t.left.value, x];
    } else {
      var lo := Tail(t);
      PairFull(h, lo);
      CarryHolds(h, t.parents, 1, leaves[..n], lo);
      hide ParentsHold, FullRoot, Carry;
      assert leaves[..n] + lo == leaves && all[..|leaves|] == leaves && all[|leaves|..] == [x];
    }
  }

  lemma PairFull<H>(h: Hasher<H>, lo: seq<H>)
    requires |lo| == 2
    ensures Pow2(1) == 2 && FullRoot(h, 1, lo) == h.combine(0, lo[0], lo[1])
  {
    assert Pow2(1) == 2 && Pow2(0) == 1;
    assert FullRoot(h, 0, lo[..1]) == lo[0] && FullRoot(h, 0, lo[1..]) == lo[1];
  }

  lemma EmptyFrontier<H>(h: Hasher<H>)
    ensures IsFrontier(h, CommitmentTree(None, None, []), [])
  {
    var leaves: seq<H> := [];
    assert leaves[..0] == leaves && leaves[0..] == leaves;
  }

  lemma {:induction false} FrontierIsFrontier<H>(h: Hasher<H>, leaves: seq<H>)
    ensures IsFrontier(h, Frontier(h, leaves), leaves) && Trimmed(Frontier(h, leaves).parents)
    ensures Frontier(h, leaves).left.None? <==> leaves == []
    ensures leaves == [] ==> Frontier(h, leaves).parents == []
  {
    hide IsFrontier, Carry;
    if leaves != [] {
      var n := |leaves| - 1;
      FrontierIsFrontier(h, leaves[..n]);
      AppendIsFrontier(h, Frontier(h, leaves[..n]), leaves[..n], leaves[n]);
      assert leaves[..n] + [leaves[n]] == leaves;
    } else {
      EmptyFrontier(h);
    }
  }

  /** A trimmed parent list is as long as the leaf count requires. */
  lemma {:induction false} ParentsBound<H>(h: Hasher<H>, parents: seq<Option<H>>, level: nat, hi: seq<H>)
    requires ParentsHold(h, parents, level, hi) && Trimmed(parents) && parents != []
    ensures |hi| >= Pow2(level + |parents| - 1)
    decreases |parents|
  {
    if |parents| > 1 {
      assert Trimmed(parents[1..]);
      match parents[0]
      case None => ParentsBound(h, parents[1..], level + 1, hi);
      case Some(p) => ParentsBound(h, parents[1..], level + 1, hi[..|hi| - Pow2(level)]);
    }
  }

  lemma {:induction false} Pow2Mono(a: nat, b: nat)
    requires a <= b
    ensures Pow2(a) <= Pow2(b)
  {
    if a < b {
      Pow2Mono(a, b - 1);
    }
  }

  /** For up to 2^32 leaves, appending them one by one gives a frontier with at most 31 parents whose
      root is that of the complete padded tree. */
  lemma FrontierOfLeaves<H>(h: Hasher<H>, leaves: seq<H>)
    requires |leaves| <= Pow2(DEPTH)
    ensures |Frontier(h, leaves).parents| < DEPTH
    ensures TreeRoot(h, Frontier(h, leaves)) == PaddedRoot(h, DEPTH, leaves)
  {
    hide PaddedRoot, FullRoot, Pad, Carry, Append, Frontier;
    var t := Frontier(h, leaves);
    FrontierIsFrontier(h, leaves);
    if |t.parents| >= DEPTH {
      ParentsBound(h, t.parents, 1, leaves[..|leaves| - |Tail(t)|]);
      Pow2Mono(DEPTH, |t.parents|);
    }
    FrontierRoot(h, t, leaves);
  }
}
