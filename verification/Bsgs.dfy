/** Baby-step giant-step discrete logarithms (crypto/elgamal/bsgs.go). The map key in the source is
    the 32-byte compression of a point, which is injective; here the point itself is the key. */
module Bsgs {
  import opened Field
  import opened Group
  import opened ElGamal

  const WORD: nat := 0x1_0000_0000_0000_0000

  datatype BSGSTable = BSGSTable(table: map<Point, nat>, m: nat, mG: Point, n: nat)

  ghost predicate IsCeilSqrt(n: nat, s: nat) {
    s * s >= n && (s > 0 ==> (s - 1) * (s - 1) < n)
  }

  /** `estimate` is the rounded-up floating-point root. When it is at most one short, the result is
      large enough; when in addition it does not overshoot, the result is the exact ceiling. */
  method CeilSqrt(n: nat, estimate: nat) returns (s: nat)
    requires (estimate + 1) * (estimate + 1) >= n
    ensures s * s >= n
    ensures n <= 1 || estimate == 0 || (estimate - 1) * (estimate - 1) < n ==> IsCeilSqrt(n, s)
  {
    if n <= 1 {
      return n;
    }
    s := estimate;
    if s * s < n {
      s := s + 1;
    }
  }

  ghost predicate IsTable(t: BSGSTable) {
    && t.m * t.m >= t.n
    && t.mG == Point(Reduce(t.m))
    && (forall j: nat :: j < t.m ==> Point(Reduce(j)) in t.table)
    && (forall p :: p in t.table ==> t.table[p] < t.m && p == Point(Reduce(t.table[p])))
  }

  lemma BabyStep(p: Point, j: nat)
    requires p == Point(Reduce(j))
    ensures PAdd(p, Generator) == Point(Reduce(j + 1))
  {
    CongReduce(j);
    CongRefl(1);
    CongAdd(p.log, j, 1, 1);
    CongIffReduce(p.log + 1, j + 1);
  }

  /** Every j*G with j below the step count is stored, and every stored point is its index times G. */
  method NewBSGSTable(n: nat, estimate: nat) returns (t: BSGSTable)
    requires n < WORD && (estimate + 1) * (estimate + 1) >= n
    ensures IsTable(t) && t.n == n
    ensures estimate == 0 || (estimate - 1) * (estimate - 1) < n ==> IsCeilSqrt(n, t.m)
  {
    ReduceScalar(0);
    if n == 0 {
      return BSGSTable(map[], 0, Identity, 0);
    }
    var m := CeilSqrt(n, estimate);
    var table: map<Point, nat> := map[];
    var current := Identity;
    for j := 0 to m
      invariant current == Point(Reduce(j))
      invariant forall i: nat :: i < j ==> Point(Reduce(i)) in table
      invariant forall p :: p in table ==> table[p] < m && p == Point(Reduce(table[p]))
    {
      table := table[current := j];
      BabyStep(current, j);
      current := PAdd(current, Generator);
    }
    GeneratorMul(Reduce(m));
    return BSGSTable(table, m, PMul(Generator, Reduce(m)), n);
  }

  /** i*m + j in unsigned 64-bit words, which wrap around. */
  function Index(i: nat, m: nat, j: nat): nat {
    (i * m + j) % WORD
  }

  /** The giant steps from step i on. */
  function Search(t: BSGSTable, candidate: Point, i: nat): Result<nat>
    requires i <= t.m + 1
    decreases t.m + 1 - i
  {
    if i > t.m then Err
    else if candidate in t.table && Index(i, t.m, t.table[candidate]) < t.n then
      Ok(Index(i, t.m, t.table[candidate]))
    else Search(t, PSub(candidate, t.mG), i + 1)
  }

  method Solve(t: BSGSTable, h: Point) returns (r: Result<nat>)
    ensures r == Search(t, h, 0)
  {
    if t.n == 0 {
      SearchEmpty(t, h, 0);
      return Err;
    }
    var candidate := h;
    for i := 0 to t.m + 1
      invariant Search(t, h, 0) == Search(t, candidate, i)
    {
      if candidate in t.table {
        var x := Index(i, t.m, t.table[candidate]);
        if x < t.n {
          return Ok(x);
        }
      }
      candidate := PSub(candidate, t.mG);
    }
    return Err;
  }

  lemma {:induction false} SearchEmpty(t: BSGSTable, h: Point, i: nat)
    requires t.n == 0 && i <= t.m + 1
    ensures Search(t, h, i) == Err
    decreases t.m + 1 - i
  {
    if i <= t.m {
      SearchEmpty(t, PSub(h, t.mG), i + 1);
    }
  }

  lemma GiantStep(candidate: Point, m: nat, i: nat, h: int)
    requires Cong(candidate.log + i * m, h)
    ensures Cong(PSub(candidate, Point(Reduce(m))).log + (i + 1) * m, h)
  {
    var c: int, r: int := candidate.log, Reduce(m);
    CongReduce(c - r);
    CongReduce(m);
    CongRefl(c);
    CongSub(c, c, r, m);
    CongTrans(Reduce(c - r), c - r, c - m);
    CongRefl((i + 1) * m);
    CongAdd(Reduce(c - r), c - m, (i + 1) * m, (i + 1) * m);
    assert c - m + (i + 1) * m == c + i * m;
    CongTrans(Reduce(c - r) + (i + 1) * m, c + i * m, h);
  }

  lemma IndexBound(i: nat, m: nat, j: nat)
    requires i <= m && j < m && m * (m + 1) <= WORD
    ensures Index(i, m, j) == i * m + j
  {
    assert i * m <= m * m;
    assert m * (m + 1) == m * m + m;
  }

  /** While no index wraps, a returned value is a discrete logarithm. */
  lemma {:induction false} SearchSound(t: BSGSTable, h: Point, candidate: Point, i: nat)
    requires IsTable(t) && t.m * (t.m + 1) <= WORD && i <= t.m + 1
    requires Cong(candidate.log + i * t.m, h.log)
    ensures var r := Search(t, candidate, i); r.Ok? ==> r.value < t.n && h == Point(Reduce(r.value))
    decreases t.m + 1 - i
  {
    if i <= t.m {
      if candidate in t.table && Index(i, t.m, t.table[candidate]) < t.n {
        IndexBound(i, t.m, t.table[candidate]);
        FoundLog(h, candidate, i * t.m, t.table[candidate]);
      } else {
        GiantStep(candidate, t.m, i, h.log);
        SearchSound(t, h, PSub(candidate, t.mG), i + 1);
      }
    }
  }

  lemma FoundLog(h: Point, candidate: Point, stride: int, j: int)
    requires Cong(candidate.log + stride, h.log) && candidate == Point(Reduce(j))
    ensures h == Point(Reduce(stride + j))
  {
    CongReduce(j);
    CongSym(Reduce(j), j);
    CongRefl(stride);
    CongAdd(j, candidate.log, stride, stride);
    CongTrans(j + stride, candidate.log + stride, h.log);
    CongIffReduce(stride + j, h.log);
    ReduceScalar(h.log);
  }

  lemma DivideSteps(x: nat, m: nat) returns (a: nat, b: nat)
    requires 0 < m && x < m * m
    ensures a < m && b < m && x == a * m + b
  {
    a, b := x / m, x % m;
    assert a >= m ==> a * m >= m * m;
  }

  lemma CandidateAtStep(candidate: Point, stride: int, b: int)
    requires Cong(candidate.log + stride, stride + b)
    ensures candidate == Point(Reduce(b))
  {
    CongRefl(stride);
    CongSub(candidate.log + stride, stride + b, stride, stride);
    CongIffReduce(candidate.log, b);
    ReduceScalar(candidate.log);
  }

  lemma StoredIndex(t: BSGSTable, b: nat)
    requires IsTable(t) && b < t.m <= Q
    ensures Point(Reduce(b)) in t.table && t.table[Point(Reduce(b))] == b
  {
    ReduceScalar(b);
    ReduceScalar(t.table[Point(Reduce(b))]);
  }

  /** At step a of x == a*m + b the candidate is b*G, so the search cannot run past it. */
  lemma {:induction false} SearchFinds(t: BSGSTable, candidate: Point, i: nat, a: nat, b: nat)
    requires IsTable(t) && t.m * (t.m + 1) <= WORD && t.m <= Q
    requires i <= a < t.m && b < t.m && a * t.m + b < t.n
    requires Cong(candidate.log + i * t.m, a * t.m + b)
    ensures Search(t, candidate, i).Ok?
    decreases t.m + 1 - i
  {
    if i == a {
      CandidateAtStep(candidate, a * t.m, b);
      StoredIndex(t, b);
      IndexBound(i, t.m, b);
    } else {
      GiantStep(candidate, t.m, i, a * t.m + b);
      SearchFinds(t, PSub(candidate, t.mG), i + 1, a, b);
    }
  }

  lemma TableSize(t: BSGSTable)
    requires IsTable(t) && t.m * (t.m + 1) <= Q && 0 < t.n
    ensures 0 < t.m <= Q && t.n <= t.m * t.m && t.n <= Q
  {
    assert t.m * (t.m + 1) == t.m * t.m + t.m;
    assert t.m == 0 ==> t.m * t.m == 0;
  }

  lemma SameScalar(x: int, y: int)
    requires 0 <= x < Q && 0 <= y < Q && Reduce(x) == Reduce(y)
    ensures x == y
  {
    ReduceScalar(x);
    ReduceScalar(y);
  }

  lemma SearchReturns(t: BSGSTable, x: nat)
    requires IsTable(t) && t.m * (t.m + 1) <= WORD && t.m * (t.m + 1) <= Q && x < t.n
    ensures Search(t, Point(Reduce(x)), 0) == Ok(x)
  {
    var h := Point(Reduce(x));
    TableSize(t);
    var a, b := DivideSteps(x, t.m);
    CongReduce(x);
    SearchFinds(t, h, 0, a, b);
    CongRefl(h.log);
    SearchSound(t, h, h, 0);
    SameScalar(x, Search(t, h, 0).value);
  }

  /** Baby-step giant-step refines brute force: it returns x exactly when x is below the bound and
      h is x*G, and fails exactly when there is no such x. */
  lemma SolveExact(t: BSGSTable, h: Point)
    requires IsTable(t) && t.m * (t.m + 1) <= WORD && t.m * (t.m + 1) <= Q
    ensures forall x: nat :: Search(t, h, 0) == Ok(x) <==> x < t.n && h == ValuePoint(x)
    ensures Search(t, h, 0).Err? <==> forall x: nat :: x < t.n ==> h != ValuePoint(x)
  {
    var r := Search(t, h, 0);
    CongRefl(h.log);
    SearchSound(t, h, h, 0);
    if r.Ok? {
      ValuePointLog(r.value);
    }
    forall x: nat | x < t.n && h == ValuePoint(x) ensures r == Ok(x) {
      ValuePointLog(x);
      SearchReturns(t, x);
    }
  }

  // ----- the largest bounds wrap around

  /** With 2^32 steps a side the last giant step reaches index 2^64, which wraps to 0. */
  lemma {:induction false} SearchWraps(t: BSGSTable, candidate: Point, i: nat)
    requires IsTable(t) && t.n > 0 && t.m == 0x1_0000_0000 && Q > WORD + t.m && i <= t.m
    requires candidate == Point(Reduce(WORD - i * t.m))
    ensures Search(t, candidate, i) == Ok(0)
    decreases t.m - i
  {
    var left := WORD - i * t.m;
    assert left == (t.m - i) * t.m;
    assert i < t.m ==> left >= t.m;
    ReduceScalar(left);
    if i == t.m {
      ReduceScalar(0);
      var j := t.table[candidate];
      ReduceScalar(j);
    } else {
      if candidate in t.table {
        ReduceScalar(t.table[candidate]);
      }
      ReduceScalar(t.m);
      ReduceScalar(left - t.m);
      assert WORD - (i + 1) * t.m == left - t.m;
      SearchWraps(t, PSub(candidate, t.mG), i + 1);
    }
  }

  ghost predicate SolvesExactly(t: BSGSTable) {
    forall h: Point, x: nat :: Search(t, h, 0) == Ok(x) <==> x < t.n && h == ValuePoint(x)
  }

  lemma StepsBelow(n: nat, m: nat)
    requires IsCeilSqrt(n, m) && n < WORD
    ensures m <= 0x1_0000_0000
    ensures m < 0x1_0000_0000 <==> n <= 0xFFFF_FFFF * 0xFFFF_FFFF
  {
    assert m >= 0x1_0000_0001 ==> (m - 1) * (m - 1) >= 0x1_0000_0000 * 0x1_0000_0000;
    assert m <= 0xFFFF_FFFF ==> m * m <= 0xFFFF_FFFF * 0xFFFF_FFFF;
  }

  /** Exactly which bounds are safe: with an exact step count, the solver is correct on every point
      if and only if the bound is at most (2^32 - 1)^2. The program's bound is 2^28. */
  lemma CorrectIffBoundFits(t: BSGSTable)
    requires IsTable(t) && IsCeilSqrt(t.n, t.m) && t.n < WORD && Q > 2 * WORD
    ensures SolvesExactly(t) <==> t.n <= 0xFFFF_FFFF * 0xFFFF_FFFF
  {
    StepsBelow(t.n, t.m);
    if t.m < 0x1_0000_0000 {
      assert t.m * (t.m + 1) <= 0xFFFF_FFFF * 0x1_0000_0000;
      forall h: Point, x: nat
        ensures Search(t, h, 0) == Ok(x) <==> x < t.n && h == ValuePoint(x)
      {
        SolveExact(t, h);
      }
    } else {
      var h := Point(Reduce(WORD));
      SearchWraps(t, h, 0);
      ValuePointLog(0);
      ReduceScalar(WORD);
      ReduceScalar(0);
      assert Search(t, h, 0) == Ok(0) && h != ValuePoint(0);
    }
  }
}
