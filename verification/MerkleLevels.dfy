/** The level-array construction of the note commitment tree and its authentication paths
    (build_shared_nc_tree and build_nc_auth_path in e2e-tests/src/setup.rs). */
module MerkleLevels {
  import opened Field
  import opened Merkle

  /** The exponent of the next power of two. */
  function CeilLog2(n: nat): nat {
    if n <= 1 then 0 else 1 + CeilLog2((n + 1) / 2)
  }

  lemma {:induction false} CeilLog2Bounds(n: nat)
    ensures n <= Pow2(CeilLog2(n))
    ensures n > 1 ==> Pow2(CeilLog2(n) - 1) < n
  {
    if n > 1 {
      CeilLog2Bounds((n + 1) / 2);
    }
  }

  lemma {:induction false} CeilLog2AtMost(n: nat, d: nat)
    requires n <= Pow2(d)
    ensures CeilLog2(n) <= d
    decreases d
  {
    if n > 1 {
      CeilLog2AtMost((n + 1) / 2, d - 1);
    }
  }

  // ----- levels

  /** Level k + 1 pairs up level k. */
  ghost predicate PairsUp<H>(h: Hasher<H>, k: nat, lower: seq<H>, upper: seq<H>) {
    |lower| == 2 * |upper| &&
    forall i :: 0 <= i < |upper| ==> upper[i] == h.combine(k, lower[2 * i], lower[2 * i + 1])
  }

  ghost predicate ValidLevels<H>(h: Hasher<H>, levels: seq<seq<H>>, base: seq<H>) {
    && levels != [] && levels[0] == base
    && forall k :: 0 <= k < |levels| - 1 ==> PairsUp(h, k, levels[k], levels[k + 1])
  }

  method PairLevel<H>(h: Hasher<H>, k: nat, prev: seq<H>) returns (next: seq<H>)
    requires |prev| % 2 == 0
    ensures PairsUp(h, k, prev, next)
  {
    next := [];
    for i := 0 to |prev| / 2
      invariant |next| == i
      invariant forall j :: 0 <= j < i ==> next[j] == h.combine(k, prev[2 * j], prev[2 * j + 1])
    {
      next := next + [h.combine(k, prev[2 * i], prev[2 * i + 1])];
    }
  }

  /** Block i of size 2^k of the base. */
  function Block<H>(base: seq<H>, k: nat, i: nat): seq<H>
    requires (i + 1) * Pow2(k) <= |base|
  {
    BlockBounds(i, Pow2(k));
    base[i * Pow2(k)..(i + 1) * Pow2(k)]
  }

  lemma BlockBounds(i: nat, p: nat)
    ensures 0 <= i * p <= (i + 1) * p && (i + 1) * p - i * p == p
  {
    assert (i + 1) * p == i * p + p;
  }

  lemma HalfBounds(i: int, p: int)
    ensures (i + 1) * (2 * p) == (2 * i + 2) * p && i * (2 * p) == (2 * i) * p
    ensures (2 * i + 1) * p == (2 * i) * p + p && (2 * i + 2) * p == (2 * i + 1) * p + p
  {
  }

  lemma SliceJoin<H>(s: seq<H>, a: nat, b: nat, c: nat)
    requires a <= b <= c <= |s|
    ensures s[a..c] == s[a..b] + s[b..c]
  {
  }

  lemma BlockHalves<H>(base: seq<H>, k: nat, i: nat)
    requires (i + 1) * Pow2(k + 1) <= |base|
    ensures (2 * i + 1) * Pow2(k) <= |base| && (2 * i + 2) * Pow2(k) <= |base|
    ensures Block(base, k + 1, i) == Block(base, k, 2 * i) + Block(base, k, 2 * i + 1)
    ensures |Block(base, k, 2 * i)| == Pow2(k) && |Block(base, k, 2 * i + 1)| == Pow2(k)
  {
    var p := Pow2(k);
    assert Pow2(k + 1) == 2 * p;
    hide Pow2;
    HalfBounds(i, p);
    BlockBounds(2 * i, p);
    SliceJoin(base, 2 * i * p, (2 * i + 1) * p, (2 * i + 2) * p);
  }

  lemma {:induction false} LevelSize<H>(h: Hasher<H>, levels: seq<seq<H>>, base: seq<H>, k: nat)
    requires ValidLevels(h, levels, base) && k < |levels|
    ensures |levels[k]| * Pow2(k) == |base|
  {
    if k > 0 {
      LevelSize(h, levels, base, k - 1);
      assert PairsUp(h, k - 1, levels[k - 1], levels[k]);
      var a, p := |levels[k]|, Pow2(k - 1);
      assert (2 * a) * p == a * (2 * p);
    }
  }

  lemma BlockFits(i: nat, n: nat, p: nat, total: nat)
    requires i < n && n * p == total
    ensures (i + 1) * p <= total
  {
    assert (i + 1) * p <= n * p;
  }

  /** Node i of level k is the root of block i. */
  lemma {:induction false} NodeIsBlockRoot<H>(h: Hasher<H>, levels: seq<seq<H>>, base: seq<H>, k: nat, i: nat)
    requires ValidLevels(h, levels, base) && k < |levels| && i < |levels[k]|
    ensures (i + 1) * Pow2(k) <= |base| && |Block(base, k, i)| == Pow2(k)
    ensures levels[k][i] == FullRoot(h, k, Block(base, k, i))
  {
    LevelSize(h, levels, base, k);
    BlockFits(i, |levels[k]|, Pow2(k), |base|);
    BlockBounds(i, Pow2(k));
    if k == 0 {
      assert Pow2(0) == 1 && i * 1 == i;
    } else {
      assert PairsUp(h, k - 1, levels[k - 1], levels[k]);
      NodeIsBlockRoot(h, levels, base, k - 1, 2 * i);
      NodeIsBlockRoot(h, levels, base, k - 1, 2 * i + 1);
      BlockHalves(base, k - 1, i);
      FullJoin(h, k - 1, Block(base, k - 1, 2 * i), Block(base, k - 1, 2 * i + 1));
    }
  }

  method BuildLevels<H>(h: Hasher<H>, leaves: seq<H>, sub: nat) returns (levels: seq<seq<H>>)
    requires |leaves| == Pow2(sub)
    ensures |levels| == sub + 1 && ValidLevels(h, levels, leaves) && |levels[sub]| == 1
  {
    levels := [leaves];
    for k := 0 to sub
      invariant |levels| == k + 1 && ValidLevels(h, levels, leaves)
      invariant |levels[k]| == Pow2(sub - k)
    {
      assert Pow2(sub - k) == 2 * Pow2(sub - k - 1);
      var next := PairLevel(h, k, levels[k]);
      levels := levels + [next];
    }
  }

  method FoldThroughEmpty<H>(h: Hasher<H>, top: H, sub: nat, ghost cmxs: seq<H>) returns (current: H)
    requires sub <= DEPTH && |cmxs| <= Pow2(sub) && top == PaddedRoot(h, sub, cmxs)
    ensures |cmxs| <= Pow2(DEPTH) && current == PaddedRoot(h, DEPTH, cmxs)
  {
    hide PaddedRoot, EmptyRoot;
    current := top;
    for level := sub to DEPTH
      invariant |cmxs| <= Pow2(level) && current == PaddedRoot(h, level, cmxs)
    {
      JoinEmpty(h, level, cmxs);
      current := h.combine(level, current, EmptyRoot(h, level));
    }
  }

  /** The subtree of the padded leaves, level by level, and the full-depth root above it. */
  method BuildSharedTree<H>(h: Hasher<H>, cmxs: seq<H>) returns (root: H, levels: seq<seq<H>>)
    requires 0 < |cmxs| <= Pow2(DEPTH)
    ensures |levels| == CeilLog2(|cmxs|) + 1 && |cmxs| <= Pow2(CeilLog2(|cmxs|))
    ensures ValidLevels(h, levels, Pad(h, cmxs, Pow2(CeilLog2(|cmxs|))))
    ensures root == PaddedRoot(h, DEPTH, cmxs)
  {
    hide FullRoot, EmptyRoot, ValidLevels, Pad, CeilLog2, Pow2;
    var sub := CeilLog2(|cmxs|);
    CeilLog2Bounds(|cmxs|);
    CeilLog2AtMost(|cmxs|, DEPTH);
    var leaves := Pad(h, cmxs, Pow2(sub));
    levels := BuildLevels(h, leaves, sub);
    TopIsRoot(h, levels, leaves, sub);
    root := FoldThroughEmpty(h, levels[sub][0], sub, cmxs);
  }

  lemma TopIsRoot<H>(h: Hasher<H>, levels: seq<seq<H>>, base: seq<H>, sub: nat)
    requires ValidLevels(h, levels, base) && |levels| == sub + 1 && |base| == Pow2(sub) && |levels[sub]| == 1
    ensures levels[sub][0] == FullRoot(h, sub, base)
  {
    NodeIsBlockRoot(h, levels, base, sub, 0);
    assert Block(base, sub, 0) == base;
  }

  // ----- authentication paths

  /** Flips the lowest bit. */
  function Sibling(i: nat): nat {
    if i % 2 == 0 then i + 1 else i - 1
  }

  /** position >> k */
  function Shifted(position: nat, k: nat): nat {
    if k == 0 then position else Shifted(position, k - 1) / 2
  }

  lemma {:induction false} ShiftedBound(position: nat, k: nat, sub: nat)
    requires position < Pow2(sub) && k <= sub
    ensures Shifted(position, k) < Pow2(sub - k)
  {
    if k > 0 {
      ShiftedBound(position, k - 1, sub);
      assert Pow2(sub - (k - 1)) == 2 * Pow2(sub - k);
    }
  }

  lemma {:induction false} ShiftedAbove(position: nat, k: nat, sub: nat)
    requires position < Pow2(sub) && sub <= k
    ensures Shifted(position, k) == 0
    decreases k
  {
    if k == sub {
      ShiftedBound(position, k, sub);
    } else {
      ShiftedAbove(position, k - 1, sub);
    }
  }

  function PathElement<H>(h: Hasher<H>, levels: seq<seq<H>>, position: nat, sub: nat, k: nat): H
    requires k < sub ==> k < |levels| && Sibling(Shifted(position, k)) < |levels[k]|
  {
    if k < sub then levels[k][Sibling(Shifted(position, k))] else EmptyRoot(h, k)
  }

  ghost predicate PathFits<H>(levels: seq<seq<H>>, position: nat, sub: nat) {
    sub <= |levels| && forall k :: 0 <= k < sub ==> Sibling(Shifted(position, k)) < |levels[k]|
  }

  method BuildAuthPath<H>(h: Hasher<H>, position: nat, levels: seq<seq<H>>, sub: nat) returns (path: seq<H>)
    requires PathFits(levels, position, sub) && sub <= DEPTH
    ensures |path| == DEPTH
    ensures forall k :: 0 <= k < DEPTH ==> path[k] == PathElement(h, levels, position, sub, k)
  {
    path := seq(DEPTH, _ => h.emptyLeaf);
    for k := 0 to sub
      invariant |path| == DEPTH
      invariant forall j :: 0 <= j < k ==> path[j] == PathElement(h, levels, position, sub, j)
    {
      path := path[k := levels[k][Sibling(Shifted(position, k))]];
    }
    for k := sub to DEPTH
      invariant |path| == DEPTH
      invariant forall j :: 0 <= j < k ==> path[j] == PathElement(h, levels, position, sub, j)
    {
      path := path[k := EmptyRoot(h, k)];
    }
  }

  /** Hashing upwards, the position's bit choosing the side, through the first n levels. */
  function FoldPath<H>(h: Hasher<H>, leaf: H, position: nat, path: seq<H>, n: nat): H
    requires n <= |path|
  {
    if n == 0 then leaf
    else
      var below := FoldPath(h, leaf, position, path, n - 1);
      if Shifted(position, n - 1) % 2 == 0 then h.combine(n - 1, below, path[n - 1])
      else h.combine(n - 1, path[n - 1], below)
  }

  lemma {:induction false} LevelCount<H>(h: Hasher<H>, levels: seq<seq<H>>, base: seq<H>, sub: nat, k: nat)
    requires ValidLevels(h, levels, base) && |levels| == sub + 1 && |base| == Pow2(sub) && k <= sub
    ensures |levels[k]| == Pow2(sub - k)
  {
    if k > 0 {
      LevelCount(h, levels, base, sub, k - 1);
      assert PairsUp(h, k - 1, levels[k - 1], levels[k]);
    }
  }

  /** Within the subtree the fold walks from node to parent. */
  lemma {:induction false} FoldInside<H>(h: Hasher<H>, levels: seq<seq<H>>, base: seq<H>, sub: nat, position: nat,
                                         path: seq<H>, n: nat)
    requires ValidLevels(h, levels, base) && |levels| == sub + 1 && |base| == Pow2(sub) && position < Pow2(sub)
    requires n <= sub <= |path| && PathFits(levels, position, sub)
    requires forall k :: 0 <= k < sub ==> path[k] == PathElement(h, levels, position, sub, k)
    ensures Shifted(position, n) < |levels[n]|
    ensures FoldPath(h, base[position], position, path, n) == levels[n][Shifted(position, n)]
  {
    hide Pow2, ValidLevels, PathElement;
    LevelCount(h, levels, base, sub, n);
    ShiftedBound(position, n, sub);
    if n > 0 {
      FoldInside(h, levels, base, sub, position, path, n - 1);
      PathInside(h, levels, position, sub, n - 1);
      ParentNode(h, levels, base, n - 1, Shifted(position, n - 1));
    } else {
      BottomLevel(h, levels, base);
    }
  }

  lemma BottomLevel<H>(h: Hasher<H>, levels: seq<seq<H>>, base: seq<H>)
    requires ValidLevels(h, levels, base)
    ensures levels[0] == base
  {
  }

  lemma PathInside<H>(h: Hasher<H>, levels: seq<seq<H>>, position: nat, sub: nat, k: nat)
    requires k < sub && PathFits(levels, position, sub)
    ensures PathElement(h, levels, position, sub, k) == levels[k][Sibling(Shifted(position, k))]
  {
  }

  /** A node and its sibling, in order, make their parent. */
  lemma ParentNode<H>(h: Hasher<H>, levels: seq<seq<H>>, base: seq<H>, k: nat, i: nat)
    requires ValidLevels(h, levels, base) && k + 1 < |levels| && i < |levels[k]| && Sibling(i) < |levels[k]|
    ensures i / 2 < |levels[k + 1]|
    ensures levels[k + 1][i / 2] ==
      if i % 2 == 0 then h.combine(k, levels[k][i], levels[k][Sibling(i)])
      else h.combine(k, levels[k][Sibling(i)], levels[k][i])
  {
    assert PairsUp(h, k, levels[k], levels[k + 1]);
  }

  /** Above the subtree every sibling is empty. */
  lemma {:induction false} FoldAbove<H>(h: Hasher<H>, cmxs: seq<H>, leaf: H, sub: nat, position: nat, path: seq<H>,
                                        n: nat)
    requires |cmxs| <= Pow2(sub) && position < Pow2(sub) && sub <= n <= |path|
    requires forall k :: sub <= k < |path| ==> path[k] == EmptyRoot(h, k)
    requires FoldPath(h, leaf, position, path, sub) == PaddedRoot(h, sub, cmxs)
    ensures |cmxs| <= Pow2(n) && FoldPath(h, leaf, position, path, n) == PaddedRoot(h, n, cmxs)
  {
    if n > sub {
      FoldAbove(h, cmxs, leaf, sub, position, path, n - 1);
      ShiftedAbove(position, n - 1, sub);
      JoinEmpty(h, n - 1, cmxs);
    }
  }

  lemma {:induction false} SiblingsFit<H>(h: Hasher<H>, levels: seq<seq<H>>, base: seq<H>, sub: nat, position: nat)
    requires ValidLevels(h, levels, base) && |levels| == sub + 1 && |base| == Pow2(sub) && position < Pow2(sub)
    ensures PathFits(levels, position, sub)
  {
    forall k | 0 <= k < sub ensures Sibling(Shifted(position, k)) < |levels[k]| {
      LevelCount(h, levels, base, sub, k);
      ShiftedBound(position, k, sub);
      assert Pow2(sub - k) == 2 * Pow2(sub - k - 1);
    }
  }

  /** Every authentication path reaches the root: from any position of the padded subtree, folding the
      leaf with its path gives the root of the complete tree, which is also the frontier's root. */
  lemma EveryPathReachesRoot<H>(h: Hasher<H>, cmxs: seq<H>, levels: seq<seq<H>>, position: nat, path: seq<H>)
    requires 0 < |cmxs| <= Pow2(DEPTH)
    requires |levels| == CeilLog2(|cmxs|) + 1 && |cmxs| <= Pow2(CeilLog2(|cmxs|))
    requires ValidLevels(h, levels, Pad(h, cmxs, Pow2(CeilLog2(|cmxs|))))
    requires position < Pow2(CeilLog2(|cmxs|)) && |path| == DEPTH
    requires PathFits(levels, position, CeilLog2(|cmxs|)) ==>
      forall k :: 0 <= k < DEPTH ==> path[k] == PathElement(h, levels, position, CeilLog2(|cmxs|), k)
    ensures FoldPath(h, Pad(h, cmxs, Pow2(CeilLog2(|cmxs|)))[position], position, path, DEPTH)
         == PaddedRoot(h, DEPTH, cmxs) == TreeRoot(h, Frontier(h, cmxs))
  {
    hide EmptyRoot, FullRoot, FoldPath, TreeRoot, Frontier, Pad;
    var sub := CeilLog2(|cmxs|);
    var base := Pad(h, cmxs, Pow2(sub));
    CeilLog2AtMost(|cmxs|, DEPTH);
    SiblingsFit(h, levels, base, sub, position);
    FoldInside(h, levels, base, sub, position, path, sub);
    ShiftedAbove(position, sub, sub);
    LevelCount(h, levels, base, sub, sub);
    TopIsRoot(h, levels, base, sub);
    FoldAbove(h, cmxs, base[position], sub, position, path, DEPTH);
    FrontierOfLeaves(h, cmxs);
  }
}
