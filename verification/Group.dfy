/** The Pallas group. It has prime order Q, so every point is a unique multiple of the generator
    and is represented here by that multiple. A point of this type is never nil or off the curve. */
module Group {
  import opened Field

  datatype Point = Point(log: Scalar)

  const Identity: Point := Point(0)

  const Generator: Point := Point(1)

  function PAdd(p: Point, q: Point): Point {
    Point(Add(p.log, q.log))
  }

  function PSub(p: Point, q: Point): Point {
    Point(Sub(p.log, q.log))
  }

  function PMul(p: Point, s: Scalar): Point {
    Point(Mul(p.log, s))
  }

  function Logs(ps: seq<Point>): (ls: seq<Scalar>)
    ensures |ls| == |ps|
  {
    seq(|ps|, i requires 0 <= i < |ps| => ps[i].log)
  }

  lemma GeneratorMul(s: Scalar)
    ensures PMul(Generator, s) == Point(s)
  {
    ReduceScalar(s);
  }

  /** A multiple of a base that is not the identity determines its factor. */
  lemma BaseInjective(p: Point, s: Scalar, u: Scalar)
    requires p != Identity && PMul(p, s) == PMul(p, u)
    ensures s == u
  {
    var l: int := p.log;
    CongIffReduce(l * s, l * u);
    assert l * s == s * l && l * u == u * l;
    assert !Cong(l, 0) by { if Cong(l, 0) { ScalarUnique(l, 0); } }
    Cancel(s, u, l);
    ScalarUnique(s, u);
  }

  /** Multiplying twice multiplies by the product. */
  lemma MulMul(p: Point, s: Scalar, u: Scalar)
    ensures PMul(PMul(p, s), u) == PMul(p, Mul(s, u))
    ensures PMul(PMul(p, s), u) == PMul(PMul(p, u), s)
  {
    var l: int, a: int, b: int := p.log, s, u;
    TripleProduct(l, a, b);
    TripleProduct(l, b, a);
    assert a * b == b * a;
  }

  lemma TripleProduct(l: int, a: int, b: int)
    ensures Reduce(Reduce(l * a) * b) == Reduce(l * Reduce(a * b))
    ensures Reduce(Reduce(l * a) * b) == Reduce((l * a) * b)
  {
    CongReduce(l * a);
    CongReduce(a * b);
    CongRefl(l);
    CongRefl(b);
    CongMul(Reduce(l * a), l * a, b, b);
    CongMul(l, l, Reduce(a * b), a * b);
    assert (l * a) * b == l * (a * b);
    CongSym(l * Reduce(a * b), l * (a * b));
    CongTrans(Reduce(l * a) * b, (l * a) * b, l * Reduce(a * b));
    CongIffReduce(Reduce(l * a) * b, l * Reduce(a * b));
    CongIffReduce(Reduce(l * a) * b, (l * a) * b);
  }
}
