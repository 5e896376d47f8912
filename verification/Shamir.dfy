/** Secret splitting, Lagrange coefficients and combination of partial decryptions
    (crypto/shamir/shamir.go and crypto/shamir/partial_decrypt.go). */
module Shamir {
  import opened Field
  import opened Polynomial
  import opened Lagrange
  import opened Group

  datatype Share = Share(index: int, value: Scalar)

  datatype PartialDecryption = PartialDecryption(index: int, di: Point)

  /** Horner's method. The source indexes the last coefficient, so the vector must not be empty. */
  method EvalPolynomial(coeffs: seq<Scalar>, x: int) returns (r: Scalar)
    requires coeffs != []
    ensures r == Reduce(PowerSum(coeffs, x))
  {
    var xs := Reduce(x);
    r := coeffs[|coeffs| - 1];
    var i := |coeffs| - 2;
    EvalSingle(coeffs, x);
    CongRefl(r);
    while i >= 0
      invariant -1 <= i <= |coeffs| - 2
      invariant Cong(r, Eval(coeffs[i + 1..], x))
    {
      HornerTail(coeffs, i, x, r);
      r := Add(Mul(r, xs), coeffs[i]);
      i := i - 1;
    }
    HornerDone(coeffs, x, r);
    EvalIsPowerSum(coeffs, x);
  }

  /** `random` supplies the t - 1 scalars the source draws from the system's generator. */
  method Split(secret: Scalar, t: int, n: int, random: seq<Scalar>)
    returns (r: Result<(seq<Share>, seq<Scalar>)>)
    requires |random| >= t - 1
    ensures r.Ok? <==> 1 <= t <= n
    ensures r.Ok? ==> r.value.1 == [secret] + random[..t - 1]
    ensures r.Ok? ==> |r.value.0| == n
    ensures r.Ok? ==> forall i :: 0 <= i < n ==>
      r.value.0[i] == Share(i + 1, Reduce(PowerSum(r.value.1, i + 1)))
  {
    if t < 1 || n < t {
      return Err;
    }
    var coeffs: seq<Scalar> := [secret];
    for i := 1 to t
      invariant coeffs == [secret] + random[..i - 1]
    {
      coeffs := coeffs + [random[i - 1]];
    }
    var shares: seq<Share> := [];
    for i := 0 to n
      invariant |shares| == i
      invariant forall k :: 0 <= k < i ==> shares[k] == Share(k + 1, Reduce(PowerSum(coeffs, k + 1)))
    {
      var v := EvalPolynomial(coeffs, i + 1);
      shares := shares + [Share(i + 1, v)];
    }
    return Ok((shares, coeffs));
  }

  // ----- Lagrange coefficients

  lemma ProductStep(p: int, t: int, x: int)
    ensures Mul(Reduce(p), Sub(Reduce(t), Reduce(x))) == Reduce(p * (t - x))
  {
    var d: int := Reduce(t) - Reduce(x);
    CongReduce(t);
    CongReduce(x);
    CongSub(Reduce(t), t, Reduce(x), x);
    CongReduce(d);
    CongTrans(Reduce(d), d, t - x);
    CongReduce(p);
    CongMul(Reduce(p), p, Reduce(d), t - x);
    CongIffReduce(Reduce(p) * Reduce(d), p * (t - x));
  }

  function Lambdas(xs: seq<int>, t: int): (ls: seq<Scalar>)
    requires Distinct(xs)
    ensures IsBasis(xs, t, ls)
  {
    seq(|xs|, j requires 0 <= j < |xs| => Lambda(xs, j, t))
  }

  ghost predicate Positive(xs: seq<int>) {
    forall i :: 0 <= i < |xs| ==> xs[i] > 0
  }

  /** The inner loop: numerator and denominator for position j. */
  method BasisFraction(xs: seq<int>, j: nat, t: int) returns (num: Scalar, den: Scalar)
    requires j < |xs|
    ensures num == Reduce(Others(xs, j, t))
    ensures den == Reduce(Others(xs, j, xs[j]))
  {
    var ts, xj := Reduce(t), Reduce(xs[j]);
    num, den := 1, 1;
    ReduceScalar(1);
    for m := 0 to |xs|
      invariant num == Reduce(OthersUpTo(xs, j, t, m))
      invariant den == Reduce(OthersUpTo(xs, j, xs[j], m))
    {
      if m != j {
        ProductStep(OthersUpTo(xs, j, t, m), t, xs[m]);
        ProductStep(OthersUpTo(xs, j, xs[j], m), xs[j], xs[m]);
        num := Mul(num, Sub(ts, Reduce(xs[m])));
        den := Mul(den, Sub(xj, Reduce(xs[m])));
      }
    }
  }

  /** The validation loop: rejects a non-positive or repeated index. */
  method CheckIndices(indices: seq<int>) returns (ok: bool)
    ensures ok <==> Positive(indices) && forall i, j :: 0 <= i < j < |indices| ==> indices[i] != indices[j]
  {
    var seen: set<int> := {};
    for i := 0 to |indices|
      invariant forall k :: 0 <= k < i ==> indices[k] > 0 && indices[k] in seen
      invariant forall v :: v in seen ==> exists k :: 0 <= k < i && indices[k] == v
      invariant forall k, l :: 0 <= k < l < i ==> indices[k] != indices[l]
    {
      if indices[i] <= 0 {
        return false;
      }
      if indices[i] in seen {
        return false;
      }
      seen := seen + {indices[i]};
    }
    return true;
  }

  /** l is position k's coefficient, and k's denominator can be inverted. */
  ghost predicate IsLambda(xs: seq<int>, k: nat, t: int, l: Scalar)
    requires k < |xs|
  {
    Reduce(Others(xs, k, xs[k])) != 0 &&
    l == Mul(Reduce(Others(xs, k, t)), Inverse(Reduce(Others(xs, k, xs[k]))))
  }

  lemma InvertibleDenominator(xs: seq<int>, j: nat)
    requires j < |xs|
    ensures Reduce(Others(xs, j, xs[j])) == 0 ==> !Distinct(xs)
    ensures Reduce(Others(xs, j, xs[j])) != 0 ==>
      forall m :: 0 <= m < |xs| && j != m ==> !Cong(xs[j], xs[m])
  {
    CongIffReduce(Others(xs, j, xs[j]), 0);
    ReduceScalar(0);
    if Distinct(xs) {
      DenominatorNonZero(xs, j, |xs|);
    }
    forall m | 0 <= m < |xs| && j != m && Cong(xs[j], xs[m]) ensures Cong(Others(xs, j, xs[j]), 0) {
      DenominatorZero(xs, j, m, |xs|);
    }
  }

  lemma AllInvertible(xs: seq<int>, t: int, ls: seq<Scalar>)
    requires |ls| == |xs|
    requires forall k :: 0 <= k < |xs| ==> IsLambda(xs, k, t, ls[k])
    ensures Distinct(xs) && ls == Lambdas(xs, t)
  {
    forall i, j | 0 <= i < j < |xs| ensures !Cong(xs[i], xs[j]) {
      assert IsLambda(xs, i, t, ls[i]);
      InvertibleDenominator(xs, i);
    }
    forall k | 0 <= k < |xs| ensures ls[k] == Lambdas(xs, t)[k] {
      assert IsLambda(xs, k, t, ls[k]);
    }
  }

  /** Succeeds exactly on a non-empty list of positive indices with pairwise different residues,
      and then returns the Lagrange basis at the target. */
  method LagrangeCoefficients(indices: seq<int>, target: int) returns (r: Result<seq<Scalar>>)
    ensures r.Ok? <==> indices != [] && Positive(indices) && Distinct(indices)
    ensures r.Ok? ==> IsBasis(indices, target, r.value) && r.value == Lambdas(indices, target)
  {
    if |indices| == 0 {
      return Err;
    }
    var valid := CheckIndices(indices);
    if !valid {
      return Err;
    }
    var lambdas: seq<Scalar> := [];
    for j := 0 to |indices|
      invariant |lambdas| == j
      invariant forall k :: 0 <= k < j ==> IsLambda(indices, k, target, lambdas[k])
    {
      var num, den := BasisFraction(indices, j, target);
      var inv := Invert(den);
      if inv.Err? {
        InvertibleDenominator(indices, j);
        return Err;
      }
      lambdas := lambdas + [Mul(num, inv.value)];
    }
    AllInvertible(indices, target, lambdas);
    return Ok(lambdas);
  }

  // ----- partial decryptions

  function PartialDecrypt(share: Scalar, c1: Point): Point {
    PMul(c1, share)
  }

  function Indices(ps: seq<PartialDecryption>): (xs: seq<int>)
    ensures |xs| == |ps|
  {
    seq(|ps|, i requires 0 <= i < |ps| => ps[i].index)
  }

  function PartialLogs(ps: seq<PartialDecryption>): (xs: seq<Scalar>)
    ensures |xs| == |ps|
  {
    seq(|ps|, i requires 0 <= i < |ps| => ps[i].di.log)
  }

  ghost predicate Combinable(ps: seq<PartialDecryption>, t: int) {
    |ps| >= t && ps != [] && Positive(Indices(ps)) && Distinct(Indices(ps))
  }

  /** The Lagrange combination at zero. */
  ghost function Combined(ps: seq<PartialDecryption>): Point
    requires Distinct(Indices(ps))
  {
    Point(Reduce(Dot(Lambdas(Indices(ps), 0), PartialLogs(ps))))
  }

  lemma AccumulateStep(acc: Scalar, sum: int, d: Scalar, l: Scalar)
    requires acc == Reduce(sum)
    ensures Add(acc, Mul(d, l)) == Reduce(sum + l * d)
  {
    CongReduce(sum);
    CongReduce(d * l);
    assert d * l == l * d;
    CongAdd(acc, sum, Mul(d, l), l * d);
    CongIffReduce(acc + Mul(d, l), sum + l * d);
  }

  lemma DotTake(a: seq<int>, b: seq<int>, i: nat)
    requires |a| == |b| && i < |a|
    ensures Dot(a[..i + 1], b[..i + 1]) == Dot(a[..i], b[..i]) + a[i] * b[i]
  {
    assert a[..i + 1][..i] == a[..i] && b[..i + 1][..i] == b[..i];
  }

  /** Interpolation in the exponent. */
  method CombinePartials(partials: seq<PartialDecryption>, t: int) returns (r: Result<Point>)
    ensures r.Ok? <==> Combinable(partials, t)
    ensures r.Ok? ==> r.value == Combined(partials)
  {
    if |partials| < t {
      return Err;
    }
    var indices: seq<int> := [];
    for i := 0 to |partials|
      invariant indices == Indices(partials)[..i]
    {
      indices := indices + [partials[i].index];
    }
    assert indices == Indices(partials);
    var lambdas := LagrangeCoefficients(indices, 0);
    if lambdas.Err? {
      return Err;
    }
    var result := Identity;
    ghost var ls, logs := lambdas.value, PartialLogs(partials);
    ReduceScalar(0);
    for i := 0 to |partials|
      invariant result.log == Reduce(Dot(ls[..i], logs[..i]))
    {
      AccumulateStep(result.log, Dot(ls[..i], logs[..i]), partials[i].di.log, lambdas.value[i]);
      DotTake(ls, logs, i);
      result := PAdd(result, PMul(partials[i].di, lambdas.value[i]));
    }
    assert ls[..|ls|] == ls && logs[..|ls|] == logs;
    return Ok(result);
  }

  /** Every partial is the base c1 times the polynomial's value at the partial's index. */
  ghost predicate OnPolynomial(ps: seq<PartialDecryption>, c: seq<int>, c1: Point) {
    forall i :: 0 <= i < |ps| ==> ps[i].di == PMul(c1, Reduce(Eval(c, ps[i].index)))
  }

  lemma {:induction false} ScaledLogs(ls: seq<int>, ps: seq<PartialDecryption>, c: seq<int>, c1: Point)
    requires |ls| == |ps| && OnPolynomial(ps, c, c1)
    ensures Cong(Dot(ls, PartialLogs(ps)), c1.log * Dot(ls, Evals(c, Indices(ps))))
  {
    var a, b := PartialLogs(ps), Evals(c, Indices(ps));
    forall i | 0 <= i < |ps| ensures Cong(ls[i] * a[i], c1.log * (ls[i] * b[i])) {
      var e := Eval(c, ps[i].index);
      CongReduce(e);
      CongRefl(c1.log);
      CongMul(c1.log, c1.log, Reduce(e), e);
      CongReduce(c1.log * Reduce(e));
      CongTrans(a[i], c1.log * Reduce(e), c1.log * e);
      CongRefl(ls[i]);
      CongMul(ls[i], ls[i], a[i], c1.log * e);
      Reassociate(ls[i], c1.log, e);
      Reassociate(c1.log, ls[i], e);
    }
    DotCong(ls, a, c1.log, ls, b);
  }

  /** Any set of at least |c| correct partials combines to c1 times the secret c(0). */
  lemma ThresholdCombination(ps: seq<PartialDecryption>, c: seq<int>, c1: Point)
    requires ps != [] && Distinct(Indices(ps)) && |c| <= |ps| && OnPolynomial(ps, c, c1)
    ensures Combined(ps) == PMul(c1, Reduce(Eval(c, 0)))
  {
    var ls: seq<int>, xs := Lambdas(Indices(ps), 0), Indices(ps);
    ScaledLogs(ls, ps, c, c1);
    Reconstruction(c, xs, 0, ls);
    CongScale(Dot(ls, PartialLogs(ps)), c1.log, Dot(ls, Evals(c, xs)), Eval(c, 0));
    CongReduce(Eval(c, 0));
    CongSym(Reduce(Eval(c, 0)), Eval(c, 0));
    CongScale(Dot(ls, PartialLogs(ps)), c1.log, Eval(c, 0), Reduce(Eval(c, 0)));
    CongIffReduce(Dot(ls, PartialLogs(ps)), c1.log * Reduce(Eval(c, 0)));
  }

  /** Which validators answered does not matter. */
  lemma SubsetIndependence(ps: seq<PartialDecryption>, qs: seq<PartialDecryption>, c: seq<int>, c1: Point)
    requires ps != [] && Distinct(Indices(ps)) && |c| <= |ps| && OnPolynomial(ps, c, c1)
    requires qs != [] && Distinct(Indices(qs)) && |c| <= |qs| && OnPolynomial(qs, c, c1)
    ensures Combined(ps) == Combined(qs)
  {
    ThresholdCombination(ps, c, c1);
    ThresholdCombination(qs, c, c1);
  }
}
