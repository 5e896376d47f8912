/** The scalar field of the Pallas group, as residues modulo its order.

    Q is an arbitrary prime: nothing below depends on which one it is, so every theorem holds for
    the order of Pallas in particular. Specifications are written over plain integers and compared
    modulo Q with `Cong`; the operations the program performs are `Add`, `Sub`, `Mul` and `Invert`. */
module Field {

  ghost predicate IsPrime(p: nat) {
    p >= 2 && forall d :: 2 <= d < p ==> p % d != 0
  }

  type Prime = p: nat | IsPrime(p) witness 2

  const Q: Prime

  type Scalar = x: int | 0 <= x < Q witness 0

  datatype Option<+T> = None | Some(value: T)

  datatype Result<+T> = Ok(value: T) | Err

  function Reduce(x: int): Scalar {
    x % Q
  }

  function Add(a: Scalar, b: Scalar): Scalar {
    Reduce(a + b)
  }

  function Sub(a: Scalar, b: Scalar): Scalar {
    Reduce(a - b)
  }

  function Mul(a: Scalar, b: Scalar): Scalar {
    Reduce(a * b)
  }

  // ----- congruence modulo Q

  ghost predicate Cong(a: int, b: int) {
    (a - b) % Q == 0
  }

  lemma Multiple(k: int)
    ensures (k * Q) % Q == 0
  {
    var r := (k * Q) % Q;
    var d := (k * Q) / Q;
    assert k * Q == d * Q + r;
    assert (k - d) * Q == r;
    assert k - d >= 1 ==> (k - d) * Q >= Q;
    assert k - d <= -1 ==> (k - d) * Q <= 0 - Q;
  }

  lemma CongBy(a: int, b: int, k: int)
    requires a - b == k * Q
    ensures Cong(a, b)
  {
    Multiple(k);
  }

  lemma CongWitness(a: int, b: int) returns (k: int)
    requires Cong(a, b)
    ensures a - b == k * Q
  {
    k := (a - b) / Q;
  }

  lemma CongRefl(a: int)
    ensures Cong(a, a)
  {
    CongBy(a, a, 0);
  }

  lemma CongSym(a: int, b: int)
    requires Cong(a, b)
    ensures Cong(b, a)
  {
    var k := CongWitness(a, b);
    CongBy(b, a, -k);
  }

  lemma CongTrans(a: int, b: int, c: int)
    requires Cong(a, b) && Cong(b, c)
    ensures Cong(a, c)
  {
    var k := CongWitness(a, b);
    var l := CongWitness(b, c);
    assert (k + l) * Q == k * Q + l * Q;
    CongBy(a, c, k + l);
  }

  lemma CongAdd(a: int, b: int, c: int, d: int)
    requires Cong(a, b) && Cong(c, d)
    ensures Cong(a + c, b + d)
  {
    var k := CongWitness(a, b);
    var l := CongWitness(c, d);
    assert (k + l) * Q == k * Q + l * Q;
    CongBy(a + c, b + d, k + l);
  }

  lemma CongSub(a: int, b: int, c: int, d: int)
    requires Cong(a, b) && Cong(c, d)
    ensures Cong(a - c, b - d)
  {
    var k := CongWitness(a, b);
    var l := CongWitness(c, d);
    assert (k - l) * Q == k * Q - l * Q;
    CongBy(a - c, b - d, k - l);
  }

  lemma CongMul(a: int, b: int, c: int, d: int)
    requires Cong(a, b) && Cong(c, d)
    ensures Cong(a * c, b * d)
  {
    var k := CongWitness(a, b);
    var l := CongWitness(c, d);
    calc {
      a * c - b * d;
      (a - b) * c + b * (c - d);
      (k * Q) * c + b * (l * Q);
      (k * c + b * l) * Q;
    }
    CongBy(a * c, b * d, k * c + b * l);
  }

  lemma CongReduce(x: int)
    ensures Cong(Reduce(x), x)
  {
    var d := x / Q;
    assert x == d * Q + x % Q;
    CongBy(x % Q, x, -d);
  }

  /** Congruent numbers reduce to the same scalar, and only they do. */
  lemma CongIffReduce(a: int, b: int)
    ensures Cong(a, b) <==> Reduce(a) == Reduce(b)
  {
    CongReduce(a);
    CongReduce(b);
    CongSym(Reduce(b), b);
    CongSym(Reduce(a), a);
    if Reduce(a) == Reduce(b) {
      CongTrans(a, Reduce(a), b);
    }
    if Cong(a, b) {
      CongTrans(Reduce(a), a, b);
      CongTrans(Reduce(a), b, Reduce(b));
      ScalarUnique(Reduce(a), Reduce(b));
    }
  }

  lemma ScalarUnique(a: Scalar, b: Scalar)
    requires Cong(a, b)
    ensures a == b
  {
    var k := CongWitness(a, b);
    assert k >= 1 ==> k * Q >= Q;
    assert k <= -1 ==> k * Q <= 0 - Q;
  }

  lemma ReduceScalar(a: Scalar)
    ensures Reduce(a) == a
  {
    CongReduce(a);
    ScalarUnique(Reduce(a), a);
  }

  // ----- inverses

  lemma EuclidStep(a: int, b: int, q: int, r: int, x: int, y: int)
    requires a == q * b + r
    ensures b * x + r * y == a * y + b * (x - q * y)
  {
    calc {
      b * x + r * y;
      b * x + (a - q * b) * y;
      b * x + a * y - b * (q * y);
      a * y + b * (x - q * y);
    }
  }

  /** Extended Euclid: the first component is a positive combination of a and b. */
  function ExtendedGcd(a: nat, b: nat): (r: (nat, int, int))
    requires a > 0 || b > 0
    ensures r.0 > 0 && r.0 == a * r.1 + b * r.2
    decreases b
  {
    if b == 0 then (a, 1, 0)
    else
      var (g, x, y) := ExtendedGcd(b, a % b);
      EuclidStep(a, b, a / b, a % b, x, y);
      (g, y, x - (a / b) * y)
  }

  ghost predicate Divides(g: int, a: int) {
    exists i: int {:trigger Product(i, g)} :: a == Product(i, g)
  }

  ghost function Product(i: int, g: int): int {
    i * g
  }

  lemma DividesCombination(g: int, b: int, r: int, q: int)
    requires Divides(g, b) && Divides(g, r)
    ensures Divides(g, q * b + r)
  {
    var i: int :| b == Product(i, g);
    var j: int :| r == Product(j, g);
    calc {
      q * b + r;
      q * (i * g) + j * g;
      (q * i + j) * g;
      Product(q * i + j, g);
    }
  }

  lemma {:induction false} GcdDivides(a: nat, b: nat)
    requires a > 0 || b > 0
    ensures Divides(ExtendedGcd(a, b).0, a) && Divides(ExtendedGcd(a, b).0, b)
    decreases b
  {
    var g := ExtendedGcd(a, b).0;
    if b == 0 {
      assert a == Product(1, g) && b == Product(0, g);
    } else {
      GcdDivides(b, a % b);
      DividesCombination(g, b, a % b, a / b);
    }
  }

  lemma PrimeDivisor(g: int)
    requires 0 < g < Q && Divides(g, Q)
    ensures g == 1
  {
    var j: int :| Q == Product(j, g);
    var d, r := Q / g, Q % g;
    assert (j - d) * g == r;
    assert j - d >= 1 ==> (j - d) * g >= g;
    assert j - d <= -1 ==> (j - d) * g <= 0 - g;
  }

  lemma CoprimeToQ(a: Scalar)
    requires a != 0
    ensures ExtendedGcd(a, Q).0 == 1
  {
    var g := ExtendedGcd(a, Q).0;
    GcdDivides(a, Q);
    var i: int :| a == Product(i, g);
    assert i <= 0 ==> i * g <= 0;
    assert i >= 1 ==> i * g >= g;
    PrimeDivisor(g);
  }

  function Inverse(a: Scalar): (r: Scalar)
    requires a != 0
    ensures Cong(a * r, 1)
  {
    CoprimeToQ(a);
    var (g, x, y) := ExtendedGcd(a, Q);
    assert a * x + Q * y == 1;
    CongBy(a * x, 1, -y);
    CongReduce(x);
    CongRefl(a);
    CongMul(a, a, Reduce(x), x);
    CongTrans(a * Reduce(x), a * x, 1);
    Reduce(x)
  }

  /** Field inversion, which fails only on zero. */
  function Invert(a: Scalar): Result<Scalar> {
    if a == 0 then Err else Ok(Inverse(a))
  }

  /** The field has no zero divisors: a factor that is not zero modulo Q can be cancelled. */
  lemma Cancel(a: int, b: int, c: int)
    requires !Cong(c, 0)
    requires Cong(a * c, b * c)
    ensures Cong(a, b)
  {
    var r: int := Reduce(c);
    CongReduce(c);
    assert r != 0 by { if r == 0 { CongSym(r, c); } }
    var i: int := Inverse(r);
    CongRefl(i);
    CongMul(r, c, i, i);
    CongSym(r * i, c * i);
    CongTrans(c * i, r * i, 1);
    CongRefl(a);
    CongRefl(b);
    CongMul(a, a, c * i, 1);
    CongMul(b, b, c * i, 1);
    CongMul(a * c, b * c, i, i);
    assert a * c * i == a * (c * i) && b * c * i == b * (c * i);
    CongSym(a * (c * i), a * 1);
    CongTrans(a, a * (c * i), b * (c * i));
    CongTrans(a, b * (c * i), b);
  }

  lemma NonZeroProduct(a: int, b: int)
    requires !Cong(a, 0) && !Cong(b, 0)
    ensures !Cong(a * b, 0)
  {
    if Cong(a * b, 0 * b) {
      Cancel(a, 0, b);
    }
  }
}
