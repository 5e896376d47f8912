/** Polynomials given by their coefficient vectors, lowest degree first. */
module Polynomial {
  import opened Field

  function Pow(x: int, n: nat): int {
    if n == 0 then 1 else x * Pow(x, n - 1)
  }

  /** The definition: c[0] + c[1]*x + ... + c[d]*x^d. */
  function PowerSum(c: seq<int>, x: int): int {
    if c == [] then 0
    else PowerSum(c[..|c| - 1], x) + c[|c| - 1] * Pow(x, |c| - 1)
  }

  /** The nested form c[0] + x*(c[1] + x*(...)), which Horner's method unrolls. */
  function Eval(c: seq<int>, x: int): int {
    if c == [] then 0 else c[0] + x * Eval(c[1..], x)
  }

  lemma AppendStep(x: int, e: int, a: int, p: int)
    ensures x * (e + a * p) == x * e + a * (x * p)
  {
  }

  lemma {:induction false} EvalAppend(c: seq<int>, a: int, x: int)
    ensures Eval(c + [a], x) == Eval(c, x) + a * Pow(x, |c|)
  {
    if c == [] {
      assert Eval([a], x) == a + x * Eval([], x);
    } else {
      EvalAppend(c[1..], a, x);
      assert (c + [a])[1..] == c[1..] + [a];
      AppendStep(x, Eval(c[1..], x), a, Pow(x, |c| - 1));
    }
  }

  lemma {:induction false} EvalIsPowerSum(c: seq<int>, x: int)
    ensures Eval(c, x) == PowerSum(c, x)
  {
    if c != [] {
      var d := |c| - 1;
      EvalIsPowerSum(c[..d], x);
      EvalAppend(c[..d], c[d], x);
      assert c == c[..d] + [c[d]];
    }
  }

  /** Synthetic division by X - r. */
  function Quotient(c: seq<int>, r: int): (g: seq<int>)
    ensures |g| == if c == [] then 0 else |c| - 1
  {
    if |c| <= 1 then [] else [Eval(c[1..], r)] + Quotient(c[1..], r)
  }

  lemma {:induction false} DivisionIdentity(c: seq<int>, r: int, x: int)
    ensures Eval(c, x) == Eval(c, r) + (x - r) * Eval(Quotient(c, r), x)
  {
    if |c| == 1 {
      assert Eval(c[1..], x) == 0 && Eval(c[1..], r) == 0;
    } else if |c| > 1 {
      var h, k := Eval(c[1..], r), Eval(Quotient(c[1..], r), x);
      DivisionIdentity(c[1..], r, x);
      assert Quotient(c, r)[1..] == Quotient(c[1..], r);
      DivisionStep(c[0], r, x, h, k);
    }
  }

  lemma DivisionStep(a: int, r: int, x: int, h: int, k: int)
    ensures a + x * (h + (x - r) * k) == a + r * h + (x - r) * (h + x * k)
  {
    assert x * ((x - r) * k) == (x - r) * (x * k);
  }

  lemma {:induction false} EvalCong(c: seq<int>, d: seq<int>, x: int, y: int)
    requires |c| == |d| && Cong(x, y)
    requires forall i :: 0 <= i < |c| ==> Cong(c[i], d[i])
    ensures Cong(Eval(c, x), Eval(d, y))
  {
    if c == [] {
      CongRefl(0);
    } else {
      EvalCong(c[1..], d[1..], x, y);
      CongMul(x, y, Eval(c[1..], x), Eval(d[1..], y));
      CongAdd(c[0], d[0], x * Eval(c[1..], x), y * Eval(d[1..], y));
    }
  }

  function Plus(c: seq<int>, d: seq<int>): (s: seq<int>)
    requires |c| == |d|
    ensures |s| == |c|
  {
    seq(|c|, i requires 0 <= i < |c| => c[i] + d[i])
  }

  lemma {:induction false} EvalPlus(c: seq<int>, d: seq<int>, x: int)
    requires |c| == |d|
    ensures Eval(Plus(c, d), x) == Eval(c, x) + Eval(d, x)
  {
    if c != [] {
      assert Plus(c, d)[1..] == Plus(c[1..], d[1..]);
      EvalPlus(c[1..], d[1..], x);
      AppendStep(x, Eval(c[1..], x), Eval(d[1..], x), 1);
    }
  }

  function Scale(k: int, c: seq<int>): (s: seq<int>)
    ensures |s| == |c|
  {
    seq(|c|, i requires 0 <= i < |c| => k * c[i])
  }

  lemma {:induction false} EvalScale(k: int, c: seq<int>, x: int)
    ensures Eval(Scale(k, c), x) == k * Eval(c, x)
  {
    if c != [] {
      assert Scale(k, c)[1..] == Scale(k, c[1..]);
      EvalScale(k, c[1..], x);
      AppendStep(k, c[0], x, Eval(c[1..], x));
    }
  }

  lemma EvalSingle(c: seq<int>, x: int)
    requires c != []
    ensures Eval(c[|c| - 1..], x) == c[|c| - 1]
  {
    assert Eval(c[|c| - 1..][1..], x) == 0;
  }

  /** One Horner step over the scalars follows the nested form modulo Q. */
  lemma HornerTail(c: seq<Scalar>, i: nat, x: int, acc: Scalar)
    requires i + 1 < |c| && Cong(acc, Eval(c[i + 1..], x))
    ensures Cong(Add(Mul(acc, Reduce(x)), c[i]), Eval(c[i..], x))
  {
    HornerStep(acc, x, c[i], Eval(c[i + 1..], x));
    assert c[i..][1..] == c[i + 1..];
  }

  /** A scalar that agrees with the whole polynomial modulo Q is its value. */
  lemma HornerDone(c: seq<Scalar>, x: int, acc: Scalar)
    requires Cong(acc, Eval(c[0..], x))
    ensures acc == Reduce(Eval(c, x))
  {
    assert c[0..] == c;
    CongIffReduce(acc, Eval(c, x));
    ReduceScalar(acc);
  }

  /** One Horner step on scalars follows the integer step modulo Q. */
  lemma HornerStep(acc: Scalar, x: int, a: Scalar, tail: int)
    requires Cong(acc, tail)
    ensures Cong(Add(Mul(acc, Reduce(x)), a), a + x * tail)
  {
    var p: int := acc * Reduce(x);
    CongReduce(x);
    CongMul(acc, tail, Reduce(x), x);
    CongReduce(p);
    CongTrans(Mul(acc, Reduce(x)), p, tail * x);
    CongRefl(a);
    CongAdd(Mul(acc, Reduce(x)), tail * x, a, a);
    CongReduce(Mul(acc, Reduce(x)) + a);
    CongTrans(Add(Mul(acc, Reduce(x)), a), Mul(acc, Reduce(x)) + a, tail * x + a);
  }
}
