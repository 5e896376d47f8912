/** Lagrange interpolation modulo Q at an arbitrary target point. */
module Lagrange {
  import opened Field
  import opened Polynomial

  ghost predicate Distinct(xs: seq<int>) {
    forall i, j :: 0 <= i < j < |xs| ==> !Cong(xs[i], xs[j])
  }

  /** The product of (t - xs[m]) over the first n positions m other than j. */
  function OthersUpTo(xs: seq<int>, j: nat, t: int, n: nat): int
    requires n <= |xs|
  {
    if n == 0 then 1
    else if n - 1 == j then OthersUpTo(xs, j, t, n - 1)
    else OthersUpTo(xs, j, t, n - 1) * (t - xs[n - 1])
  }

  function Others(xs: seq<int>, j: nat, t: int): int {
    OthersUpTo(xs, j, t, |xs|)
  }

  /** ls are basis coefficients for xs at t: each, times its denominator, is its numerator. */
  ghost predicate IsBasis(xs: seq<int>, t: int, ls: seq<int>) {
    |ls| == |xs| &&
    forall j :: 0 <= j < |xs| ==> Cong(ls[j] * Others(xs, j, xs[j]), Others(xs, j, t))
  }

  // ----- denominators

  lemma {:induction false} DenominatorNonZero(xs: seq<int>, j: nat, n: nat)
    requires Distinct(xs) && j < |xs| && n <= |xs|
    ensures !Cong(OthersUpTo(xs, j, xs[j], n), 0)
  {
    if n == 0 {
      assert !Cong(1, 0) by { if Cong(1, 0) { ScalarUnique(1, 0); } }
    } else {
      DenominatorNonZero(xs, j, n - 1);
      if n - 1 != j {
        assert !Cong(xs[j] - xs[n - 1], 0) by {
          if Cong(xs[j] - xs[n - 1], 0) {
            assert Cong(xs[j], xs[n - 1]);
            CongSym(xs[j], xs[n - 1]);
          }
        }
        NonZeroProduct(OthersUpTo(xs, j, xs[j], n - 1), xs[j] - xs[n - 1]);
      }
    }
  }

  /** A repeated residue makes the denominator of either position vanish. */
  lemma {:induction false} DenominatorZero(xs: seq<int>, j: nat, k: nat, n: nat)
    requires j < |xs| && k < n <= |xs| && k != j && Cong(xs[j], xs[k])
    ensures Cong(OthersUpTo(xs, j, xs[j], n), 0)
  {
    var prev := OthersUpTo(xs, j, xs[j], n - 1);
    if n - 1 == k {
      assert Cong(xs[j] - xs[k], 0);
      CongRefl(prev);
      CongMul(prev, prev, xs[j] - xs[k], 0);
    } else {
      DenominatorZero(xs, j, k, n - 1);
      if n - 1 != j {
        CongRefl(xs[j] - xs[n - 1]);
        CongMul(prev, 0, xs[j] - xs[n - 1], xs[j] - xs[n - 1]);
      }
    }
  }

  function Lambda(xs: seq<int>, j: nat, t: int): (l: Scalar)
    requires j < |xs| && Distinct(xs)
    ensures Cong(l * Others(xs, j, xs[j]), Others(xs, j, t))
  {
    var num, den := Others(xs, j, t), Others(xs, j, xs[j]);
    DenominatorNonZero(xs, j, |xs|);
    CongIffReduce(den, 0);
    ReduceScalar(0);
    LambdaLaw(num, den);
    Mul(Reduce(num), Inverse(Reduce(den)))
  }

  lemma LambdaLaw(num: int, den: int)
    requires Reduce(den) != 0
    ensures Cong(Mul(Reduce(num), Inverse(Reduce(den))) * den, num)
  {
    hide Cong, Reduce, Inverse;
    var n: int, d: int := Reduce(num), Reduce(den);
    var i: int := Inverse(Reduce(den));
    CongReduce(num);
    CongReduce(den);
    CongSym(d, den);
    CongReduce(n * i);
    QuotientLaw(num, den, n, d, i, Reduce(n * i));
  }

  lemma QuotientLaw(num: int, den: int, n: int, d: int, i: int, quotient: int)
    requires Cong(n, num) && Cong(den, d) && Cong(d * i, 1) && Cong(quotient, n * i)
    ensures Cong(quotient * den, num)
  {
    hide Cong;
    CongMul(quotient, n * i, den, d);
    CongMul(n, num, d * i, 1);
    assert n * i * d == n * (d * i);
    CongTrans(quotient * den, n * (d * i), num);
  }

  lemma BasisExists(xs: seq<int>, t: int) returns (ls: seq<int>)
    requires Distinct(xs)
    ensures IsBasis(xs, t, ls)
  {
    ls := seq(|xs|, j requires 0 <= j < |xs| => Lambda(xs, j, t));
  }

  // ----- removing a point

  lemma {:induction false} OthersPrefix(xs: seq<int>, j: nat, t: int, n: nat, m: nat)
    requires n <= m <= |xs|
    ensures OthersUpTo(xs[..m], j, t, n) == OthersUpTo(xs, j, t, n)
  {
    if n > 0 {
      OthersPrefix(xs, j, t, n - 1, m);
    }
  }

  lemma Reassociate(a: int, b: int, c: int)
    ensures (a * b) * c == a * (b * c)
  {
  }

  lemma {:induction false} OthersSuffix(xs: seq<int>, j: nat, t: int, n: nat)
    requires 1 <= n <= |xs| && 1 <= j
    ensures OthersUpTo(xs, j, t, n) == (t - xs[0]) * OthersUpTo(xs[1..], j - 1, t, n - 1)
  {
    if n == 1 {
      assert OthersUpTo(xs, j, t, 0) == 1;
    } else {
      OthersSuffix(xs, j, t, n - 1);
      if n - 1 != j {
        Reassociate(t - xs[0], OthersUpTo(xs[1..], j - 1, t, n - 2), t - xs[n - 1]);
      }
    }
  }

  /** If position j's product over xs is (target - a) times its product over a shorter list, then
      its coefficient, scaled by the distance to a, is the shorter list's times (t - a). */
  lemma ScaledCoefficient(l: int, l': int, den': int, num': int, x: int, a: int, t: int)
    requires Cong(l * (den' * (x - a)), num' * (t - a)) || Cong(l * ((x - a) * den'), (t - a) * num')
    requires Cong(l' * den', num') && !Cong(den', 0)
    ensures Cong(l * (x - a), (t - a) * l')
  {
    assert l * (den' * (x - a)) == l * ((x - a) * den') && num' * (t - a) == (t - a) * num';
    CongRefl(t - a);
    CongMul(t - a, t - a, l' * den', num');
    CongSym((t - a) * (l' * den'), (t - a) * num');
    CongTrans(l * ((x - a) * den'), (t - a) * num', (t - a) * (l' * den'));
    assert l * ((x - a) * den') == (l * (x - a)) * den';
    assert (t - a) * (l' * den') == ((t - a) * l') * den';
    Cancel(l * (x - a), (t - a) * l', den');
  }

  lemma DropLastCoefficient(xs: seq<int>, t: int, ls: seq<int>, L: seq<int>, j: nat)
    requires Distinct(xs) && IsBasis(xs, t, ls) && j < |xs| - 1
    requires IsBasis(xs[..|xs| - 1], t, L)
    ensures Cong(ls[j] * (xs[j] - xs[|xs| - 1]), (t - xs[|xs| - 1]) * L[j])
  {
    var k := |xs| - 1;
    OthersPrefix(xs, j, t, k, k);
    OthersPrefix(xs, j, xs[j], k, k);
    var den, num := Others(xs[..k], j, xs[j]), Others(xs[..k], j, t);
    DenominatorNonZero(xs[..k], j, k);
    ScaledCoefficient(ls[j], L[j], den, num, xs[j], xs[k], t);
  }

  lemma DropFirstCoefficient(xs: seq<int>, t: int, ls: seq<int>, R: seq<int>, j: nat)
    requires Distinct(xs) && IsBasis(xs, t, ls) && 1 <= j < |xs|
    requires IsBasis(xs[1..], t, R)
    ensures Cong(ls[j] * (xs[j] - xs[0]), (t - xs[0]) * R[j - 1])
  {
    OthersSuffix(xs, j, t, |xs|);
    OthersSuffix(xs, j, xs[j], |xs|);
    DenominatorNonZero(xs[1..], j - 1, |xs| - 1);
    ScaledCoefficient(ls[j], R[j - 1],
                      Others(xs[1..], j - 1, xs[j]), Others(xs[1..], j - 1, t), xs[j], xs[0], t);
  }

  // ----- weighted sums

  function Dot(a: seq<int>, b: seq<int>): int
    requires |a| == |b|
  {
    if a == [] then 0 else Dot(a[..|a| - 1], b[..|a| - 1]) + a[|a| - 1] * b[|a| - 1]
  }

  lemma {:induction false} DotFront(a: seq<int>, b: seq<int>)
    requires |a| == |b| > 0
    ensures Dot(a, b) == a[0] * b[0] + Dot(a[1..], b[1..])
  {
    var n := |a| - 1;
    if n > 0 {
      DotFront(a[..n], b[..n]);
      assert a[..n][1..] == a[1..][..n - 1] && b[..n][1..] == b[1..][..n - 1];
    }
  }

  lemma CongCombine(p: int, x: int, c: int, u: int, v: int)
    requires Cong(p, c * u) && Cong(x, c * v)
    ensures Cong(p + x, c * (u + v))
  {
    CongAdd(p, c * u, x, c * v);
    assert c * (u + v) == c * u + c * v;
  }

  lemma {:induction false} DotCong(a: seq<int>, b: seq<int>, c: int, d: seq<int>, e: seq<int>)
    requires |a| == |b| == |d| == |e|
    requires forall i :: 0 <= i < |a| ==> Cong(a[i] * b[i], c * (d[i] * e[i]))
    ensures Cong(Dot(a, b), c * Dot(d, e))
  {
    if a == [] {
      CongRefl(0);
    } else {
      var n := |a| - 1;
      DotCong(a[..n], b[..n], c, d[..n], e[..n]);
      CongCombine(Dot(a[..n], b[..n]), a[n] * b[n], c, Dot(d[..n], e[..n]), d[n] * e[n]);
    }
  }

  function Ones(n: nat): (s: seq<int>)
    ensures |s| == n
  {
    seq(n, _ => 1)
  }

  /** Adding the constant u to every entry adds u times the sum of the weights. */
  lemma {:induction false} DotShift(a: seq<int>, b: seq<int>, u: int, d: seq<int>)
    requires |a| == |b| == |d|
    requires forall i :: 0 <= i < |a| ==> b[i] == u + d[i]
    ensures Dot(a, b) == u * Dot(a, Ones(|a|)) + Dot(a, d)
  {
    if a != [] {
      var n := |a| - 1;
      DotShift(a[..n], b[..n], u, d[..n]);
      assert Ones(|a|)[..n] == Ones(n);
      var w := Dot(a[..n], Ones(n));
      calc {
        Dot(a, b);
        u * w + Dot(a[..n], d[..n]) + a[n] * (u + d[n]);
        u * (w + a[n] * 1) + Dot(a[..n], d[..n]) + a[n] * d[n];
      }
    }
  }

  // ----- reconstruction

  function Distances(xs: seq<int>, a: int): (s: seq<int>)
    ensures |s| == |xs|
  {
    seq(|xs|, i requires 0 <= i < |xs| => xs[i] - a)
  }

  lemma ScaledTerm(l: int, d: int, c: int, m: int, z: int)
    requires Cong(l * d, c * m)
    ensures Cong(l * (d * z), c * (m * z))
  {
    CongRefl(z);
    CongMul(l * d, c * m, z, z);
    assert (l * d) * z == l * (d * z) && (c * m) * z == c * (m * z);
  }

  lemma SumWithoutLast(xs: seq<int>, t: int, ls: seq<int>, L: seq<int>, ys: seq<int>, zs: seq<int>)
    requires Distinct(xs) && IsBasis(xs, t, ls) && |xs| >= 2 && |ys| == |xs| && |zs| == |xs| - 1
    requires IsBasis(xs[..|xs| - 1], t, L)
    requires forall j :: 0 <= j < |xs| - 1 ==> ys[j] == (xs[j] - xs[|xs| - 1]) * zs[j]
    requires ys[|xs| - 1] == 0
    ensures Cong(Dot(ls, ys), (t - xs[|xs| - 1]) * Dot(L, zs))
  {
    var k := |xs| - 1;
    var a := xs[k];
    forall j | 0 <= j < k ensures Cong(ls[..k][j] * ys[..k][j], (t - a) * (L[j] * zs[j])) {
      DropLastCoefficient(xs, t, ls, L, j);
      ScaledTerm(ls[j], xs[j] - a, t - a, L[j], zs[j]);
    }
    assert Dot(ls, ys) == Dot(ls[..k], ys[..k]) by {
      assert ls[k] * ys[k] == 0;
    }
    DotCong(ls[..k], ys[..k], t - a, L, zs);
  }

  lemma SumWithoutFirst(xs: seq<int>, t: int, ls: seq<int>, R: seq<int>, ys: seq<int>, zs: seq<int>)
    requires Distinct(xs) && IsBasis(xs, t, ls) && |xs| >= 2 && |ys| == |xs| && |zs| == |xs| - 1
    requires IsBasis(xs[1..], t, R)
    requires forall j :: 1 <= j < |xs| ==> ys[j] == (xs[j] - xs[0]) * zs[j - 1]
    requires ys[0] == 0
    ensures Cong(Dot(ls, ys), (t - xs[0]) * Dot(R, zs))
  {
    var b := xs[0];
    forall j | 0 <= j < |xs| - 1 ensures Cong(ls[1..][j] * ys[1..][j], (t - b) * (R[j] * zs[j])) {
      DropFirstCoefficient(xs, t, ls, R, j + 1);
      ScaledTerm(ls[j + 1], xs[j + 1] - b, t - b, R[j], zs[j]);
    }
    assert Dot(ls, ys) == Dot(ls[1..], ys[1..]) by {
      DotFront(ls, ys);
      assert ls[0] * ys[0] == 0;
    }
    DotCong(ls[1..], ys[1..], t - b, R, zs);
  }

  lemma DistancesToLast(xs: seq<int>, t: int, ls: seq<int>, L: seq<int>)
    requires Distinct(xs) && IsBasis(xs, t, ls) && |xs| >= 2
    requires IsBasis(xs[..|xs| - 1], t, L) && Cong(Dot(L, Ones(|xs| - 1)), 1)
    ensures Cong(Dot(ls, Distances(xs, xs[|xs| - 1])), t - xs[|xs| - 1])
  {
    var k := |xs| - 1;
    SumWithoutLast(xs, t, ls, L, Distances(xs, xs[k]), Ones(k));
    ScaledUnit(Dot(ls, Distances(xs, xs[k])), t - xs[k], Dot(L, Ones(k)));
  }

  lemma DistancesToFirst(xs: seq<int>, t: int, ls: seq<int>, R: seq<int>)
    requires Distinct(xs) && IsBasis(xs, t, ls) && |xs| >= 2
    requires IsBasis(xs[1..], t, R) && Cong(Dot(R, Ones(|xs| - 1)), 1)
    ensures Cong(Dot(ls, Distances(xs, xs[0])), t - xs[0])
  {
    var k := |xs| - 1;
    SumWithoutFirst(xs, t, ls, R, Distances(xs, xs[0]), Ones(k));
    ScaledUnit(Dot(ls, Distances(xs, xs[0])), t - xs[0], Dot(R, Ones(k)));
  }

  lemma BasisOfOne(xs: seq<int>, t: int, ls: seq<int>)
    requires IsBasis(xs, t, ls) && |xs| == 1
    ensures Cong(Dot(ls, Ones(|xs|)), 1)
  {
    assert Dot(ls, Ones(1)) == ls[0];
    assert OthersUpTo(xs, 0, t, 0) == 1 && OthersUpTo(xs, 0, xs[0], 0) == 1;
    assert Others(xs, 0, t) == 1 && Others(xs, 0, xs[0]) == 1;
    assert Cong(ls[0] * Others(xs, 0, xs[0]), Others(xs, 0, t));
  }

  /** The basis is a partition of unity. */
  lemma {:induction false} BasisSumsToOne(xs: seq<int>, t: int, ls: seq<int>)
    requires Distinct(xs) && IsBasis(xs, t, ls) && |xs| >= 1
    ensures Cong(Dot(ls, Ones(|xs|)), 1)
    decreases |xs|
  {
    if |xs| == 1 {
      BasisOfOne(xs, t, ls);
    } else {
      var k := |xs| - 1;
      var L := BasisExists(xs[..k], t);
      var R := BasisExists(xs[1..], t);
      BasisSumsToOne(xs[..k], t, L);
      BasisSumsToOne(xs[1..], t, R);
      DistancesToLast(xs, t, ls, L);
      DistancesToFirst(xs, t, ls, R);
      assert !Cong(xs[0], xs[k]);
      UnitStep(xs, t, ls);
    }
  }

  lemma UnitStep(xs: seq<int>, t: int, ls: seq<int>)
    requires |ls| == |xs| >= 2 && !Cong(xs[0], xs[|xs| - 1])
    requires Cong(Dot(ls, Distances(xs, xs[|xs| - 1])), t - xs[|xs| - 1])
    requires Cong(Dot(ls, Distances(xs, xs[0])), t - xs[0])
    ensures Cong(Dot(ls, Ones(|xs|)), 1)
  {
    var a, b := xs[|xs| - 1], xs[0];
    DotShift(ls, Distances(xs, a), b - a, Distances(xs, b));
    UnitFromDistances(Dot(ls, Ones(|xs|)), Dot(ls, Distances(xs, a)), Dot(ls, Distances(xs, b)), a, b, t);
  }

  lemma UnitFromDistances(w: int, da: int, db: int, a: int, b: int, t: int)
    requires Cong(da, t - a) && Cong(db, t - b) && da == (b - a) * w + db && !Cong(b, a)
    ensures Cong(w, 1)
  {
    CongSub(da, t - a, db, t - b);
    assert da - db == w * (b - a);
    var d := b - a;
    assert (t - a) - (t - b) == 1 * d && !Cong(d, 0);
    Cancel(w, 1, d);
  }

  lemma CongScale(s: int, c: int, u: int, v: int)
    requires Cong(s, c * u) && Cong(u, v)
    ensures Cong(s, c * v)
  {
    CongRefl(c);
    CongMul(c, c, u, v);
    CongTrans(s, c * u, c * v);
  }

  lemma ScaledUnit(s: int, c: int, u: int)
    requires Cong(s, c * u) && Cong(u, 1)
    ensures Cong(s, c)
  {
    CongScale(s, c, u, 1);
  }

  function Evals(c: seq<int>, xs: seq<int>): (ys: seq<int>)
    ensures |ys| == |xs|
  {
    seq(|xs|, i requires 0 <= i < |xs| => Eval(c, xs[i]))
  }

  /** Reconstruction: any |c| or more points of the polynomial determine its value at the target. */
  lemma {:induction false} Reconstruction(c: seq<int>, xs: seq<int>, t: int, ls: seq<int>)
    requires Distinct(xs) && IsBasis(xs, t, ls) && |xs| >= 1 && |c| <= |xs|
    ensures Cong(Dot(ls, Evals(c, xs)), Eval(c, t))
    decreases |xs|
  {
    hide Cong, Others, OthersUpTo;
    var k := |xs| - 1;
    var a, g := xs[k], Quotient(c, xs[k]);
    var u := Eval(c, a);
    BasisSumsToOne(xs, t, ls);
    var rest := seq(|xs|, i requires 0 <= i < |xs| => (xs[i] - a) * Eval(g, xs[i]));
    forall i | 0 <= i < |xs| ensures Evals(c, xs)[i] == u + rest[i] {
      DivisionIdentity(c, a, xs[i]);
    }
    DotShift(ls, Evals(c, xs), u, rest);
    var w := Dot(ls, Ones(|xs|));
    if k == 0 {
      assert Dot(ls, rest) == 0 && Eval(g, t) == 0;
      CongRefl(0);
    } else {
      var L := BasisExists(xs[..k], t);
      Reconstruction(g, xs[..k], t, L);
      SumWithoutLast(xs, t, ls, L, rest, Evals(g, xs[..k]));
      CongScale(Dot(ls, rest), t - a, Dot(L, Evals(g, xs[..k])), Eval(g, t));
    }
    CongRefl(u);
    CongMul(u, u, w, 1);
    CongAdd(u * w, u * 1, Dot(ls, rest), (t - a) * Eval(g, t));
    DivisionIdentity(c, a, t);
  }
}
