/** Feldman commitments and their combination in a joint key generation (crypto/shamir/feldman.go). */
module Feldman {
  import opened Field
  import opened Polynomial
  import opened Group

  function Commit(g: Point, coeffs: seq<Scalar>): (cs: seq<Point>)
    ensures |cs| == |coeffs|
  {
    seq(|coeffs|, j requires 0 <= j < |coeffs| => PMul(g, coeffs[j]))
  }

  method FeldmanCommit(g: Point, coeffs: seq<Scalar>) returns (r: Result<seq<Point>>)
    ensures r.Ok? <==> g != Identity && coeffs != []
    ensures r.Ok? ==> r.value == Commit(g, coeffs)
  {
    if g == Identity || |coeffs| == 0 {
      return Err;
    }
    var commitments: seq<Point> := [];
    for j := 0 to |coeffs|
      invariant commitments == Commit(g, coeffs)[..j]
    {
      commitments := commitments + [PMul(g, coeffs[j])];
    }
    return Ok(commitments);
  }

  /** The committed polynomial at index, in the exponent: the sum of index^j * cs[j]. */
  function CommitmentAt(cs: seq<Point>, index: int): Point {
    Point(Reduce(Eval(Logs(cs), index)))
  }

  /** Horner's method in the group. */
  method EvalCommitmentPolynomial(cs: seq<Point>, index: int) returns (r: Result<Point>)
    ensures r.Ok? <==> cs != [] && index > 0
    ensures r.Ok? ==> r.value == CommitmentAt(cs, index)
  {
    if |cs| == 0 || index <= 0 {
      return Err;
    }
    var x := Reduce(index);
    ghost var ls := Logs(cs);
    var result := cs[|cs| - 1];
    var i := |cs| - 2;
    EvalSingle(ls, index);
    CongRefl(result.log);
    while i >= 0
      invariant -1 <= i <= |cs| - 2
      invariant Cong(result.log, Eval(ls[i + 1..], index))
    {
      HornerTail(ls, i, index, result.log);
      result := PAdd(PMul(result, x), cs[i]);
      i := i - 1;
    }
    HornerDone(ls, index, result.log);
    return Ok(result);
  }

  predicate ShareMatches(g: Point, cs: seq<Point>, index: int, share: Scalar) {
    PMul(g, share) == CommitmentAt(cs, index)
  }

  method VerifyFeldmanShare(g: Point, cs: seq<Point>, index: int, share: Scalar) returns (r: Result<bool>)
    ensures r.Ok? <==> g != Identity && index > 0 && cs != []
    ensures r.Ok? ==> r.value == ShareMatches(g, cs, index, share)
  {
    if g == Identity || index <= 0 {
      return Err;
    }
    var expected := EvalCommitmentPolynomial(cs, index);
    if expected.Err? {
      return Err;
    }
    return Ok(PMul(g, share) == expected.value);
  }

  /** Horner in the group mirrors Horner in the field. */
  lemma CommitmentAtCommit(g: Point, coeffs: seq<Scalar>, index: int)
    ensures CommitmentAt(Commit(g, coeffs), index) == PMul(g, Reduce(PowerSum(coeffs, index)))
  {
    var a, b := Logs(Commit(g, coeffs)), Scale(g.log, coeffs);
    forall i | 0 <= i < |coeffs| ensures Cong(a[i], b[i]) {
      CongReduce(g.log * coeffs[i]);
    }
    CongRefl(index);
    EvalCong(a, b, index, index);
    EvalScale(g.log, coeffs, index);
    EvalIsPowerSum(coeffs, index);
    var v := PowerSum(coeffs, index);
    CongReduce(v);
    CongSym(Reduce(v), v);
    CongRefl(g.log);
    CongMul(g.log, g.log, v, Reduce(v));
    CongTrans(Eval(a, index), g.log * v, g.log * Reduce(v));
    CongIffReduce(Eval(a, index), g.log * Reduce(v));
  }

  /** The check accepts the polynomial's value at the index and nothing else. */
  lemma VerifyExact(g: Point, coeffs: seq<Scalar>, index: int, share: Scalar)
    requires g != Identity
    ensures ShareMatches(g, Commit(g, coeffs), index, share) <==> share == Reduce(PowerSum(coeffs, index))
  {
    CommitmentAtCommit(g, coeffs, index);
    if PMul(g, share) == PMul(g, Reduce(PowerSum(coeffs, index))) {
      BaseInjective(g, share, Reduce(PowerSum(coeffs, index)));
    }
  }

  /** Against any commitments at all, at most one share passes for an index. */
  lemma MatchingShareUnique(g: Point, cs: seq<Point>, index: int, s: Scalar, u: Scalar)
    requires g != Identity && ShareMatches(g, cs, index, s) && ShareMatches(g, cs, index, u)
    ensures s == u
  {
    BaseInjective(g, s, u);
  }

  // ----- combining contributions

  ghost predicate SameLength(vs: seq<seq<Point>>, t: nat) {
    forall i :: 0 <= i < |vs| ==> |vs[i]| == t
  }

  /** The integer sum of the logarithms in one column. */
  ghost function ColumnSum(vs: seq<seq<Point>>, t: nat, j: nat): int
    requires SameLength(vs, t) && j < t
  {
    if vs == [] then 0 else ColumnSum(vs[..|vs| - 1], t, j) + vs[|vs| - 1][j].log
  }

  ghost function Columns(vs: seq<seq<Point>>, t: nat): (s: seq<int>)
    requires SameLength(vs, t)
    ensures |s| == t
  {
    seq(t, j requires 0 <= j < t => ColumnSum(vs, t, j))
  }

  ghost function CombinedVector(vs: seq<seq<Point>>, t: nat): (cs: seq<Point>)
    requires SameLength(vs, t)
    ensures |cs| == t
  {
    seq(t, j requires 0 <= j < t => Point(Reduce(ColumnSum(vs, t, j))))
  }

  method SumColumn(vs: seq<seq<Point>>, t: nat, j: nat) returns (sum: Point)
    requires vs != [] && SameLength(vs, t) && j < t
    ensures sum == Point(Reduce(ColumnSum(vs, t, j)))
  {
    sum := vs[0][j];
    assert vs[..1][..0] == [] && ColumnSum([], t, j) == 0;
    ReduceScalar(sum.log);
    for i := 1 to |vs|
      invariant sum.log == Reduce(ColumnSum(vs[..i], t, j))
    {
      var prev := ColumnSum(vs[..i], t, j);
      CongReduce(prev);
      CongRefl(vs[i][j].log);
      CongAdd(sum.log, prev, vs[i][j].log, vs[i][j].log);
      CongIffReduce(sum.log + vs[i][j].log, prev + vs[i][j].log);
      assert vs[..i + 1][..i] == vs[..i];
      sum := PAdd(sum, vs[i][j]);
    }
    assert vs[..|vs|] == vs;
  }

  method CombineCommitments(vs: seq<seq<Point>>) returns (r: Result<seq<Point>>)
    ensures r.Ok? <==> vs != [] && vs[0] != [] && SameLength(vs, |vs[0]|)
    ensures r.Ok? ==> r.value == CombinedVector(vs, |vs[0]|)
  {
    if |vs| == 0 || |vs[0]| == 0 {
      return Err;
    }
    var t := |vs[0]|;
    for i := 0 to |vs|
      invariant SameLength(vs[..i], t)
    {
      if |vs[i]| != t {
        return Err;
      }
    }
    assert vs[..|vs|] == vs;
    var combined: seq<Point> := [];
    for j := 0 to t
      invariant combined == CombinedVector(vs, t)[..j]
    {
      var sum := SumColumn(vs, t, j);
      combined := combined + [sum];
    }
    return Ok(combined);
  }

  /** The sum over all contributors of their committed polynomial at x. */
  ghost function SumAt(vs: seq<seq<Point>>, x: int): int {
    if vs == [] then 0 else SumAt(vs[..|vs| - 1], x) + Eval(Logs(vs[|vs| - 1]), x)
  }

  lemma {:induction false} ColumnsEval(vs: seq<seq<Point>>, t: nat, x: int)
    requires SameLength(vs, t)
    ensures Eval(Columns(vs, t), x) == SumAt(vs, x)
  {
    if vs == [] {
      ZeroEval(Columns(vs, t), x);
    } else {
      var n := |vs| - 1;
      ColumnsEval(vs[..n], t, x);
      assert Columns(vs, t) == Plus(Columns(vs[..n], t), Logs(vs[n]));
      EvalPlus(Columns(vs[..n], t), Logs(vs[n]), x);
    }
  }

  lemma {:induction false} ZeroEval(c: seq<int>, x: int)
    requires forall i :: 0 <= i < |c| ==> c[i] == 0
    ensures Eval(c, x) == 0
  {
    if c != [] {
      ZeroEval(c[1..], x);
    }
  }

  /** The combined vector commits to the sum of the contributors' polynomials. */
  lemma CombinedAt(vs: seq<seq<Point>>, t: nat, x: int)
    requires SameLength(vs, t)
    ensures CommitmentAt(CombinedVector(vs, t), x) == Point(Reduce(SumAt(vs, x)))
  {
    var a, b := Logs(CombinedVector(vs, t)), Columns(vs, t);
    forall i | 0 <= i < t ensures Cong(a[i], b[i]) {
      CongReduce(b[i]);
    }
    CongRefl(x);
    EvalCong(a, b, x, x);
    ColumnsEval(vs, t, x);
    CongIffReduce(Eval(a, x), SumAt(vs, x));
  }
}
