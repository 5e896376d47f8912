/** The acknowledgement as the program performs it: scalars are heap objects that are wiped in place
    (ackDKGRound, loadCoeffs and zeroScalar in app/prepare_proposal_ceremony.go). */
module AckHandler {
  import opened Field
  import opened Polynomial
  import opened Group
  import opened Feldman
  import opened ByteStrings
  import opened Ecies
  import opened Round
  import opened Ceremony

  class ScalarCell {
    var v: Scalar

    constructor (v: Scalar)
      ensures this.v == v
    {
      this.v := v;
    }

    method Zero()
      modifies this
      ensures v == 0
    {
      v := 0;
    }
  }

  function Values(cells: seq<ScalarCell>): (vs: seq<Scalar>)
    reads cells
    ensures |vs| == |cells|
    ensures forall i :: 0 <= i < |cells| ==> vs[i] == cells[i].v
  {
    if cells == [] then [] else Values(cells[..|cells| - 1]) + [cells[|cells| - 1].v]
  }

  /** Horner's method on scalar objects. With a single coefficient no arithmetic happens and the
      result is that coefficient object itself. */
  method EvalCells(coeffs: seq<ScalarCell>, x: int) returns (r: ScalarCell)
    requires coeffs != []
    ensures r.v == Reduce(Eval(Values(coeffs), x))
    ensures if |coeffs| == 1 then r == coeffs[0] else fresh(r)
  {
    hide Eval, Cong, Reduce, Values, Add, Mul;
    var xs := Reduce(x);
    r := coeffs[|coeffs| - 1];
    ghost var vs := Values(coeffs);
    var i := |coeffs| - 2;
    EvalSingle(vs, x);
    CongRefl(r.v);
    while i >= 0
      invariant -1 <= i <= |coeffs| - 2
      invariant Cong(r.v, Eval(vs[i + 1..], x))
      invariant if i == |coeffs| - 2 then r == coeffs[|coeffs| - 1] else fresh(r)
    {
      HornerTail(vs, i, x, r.v);
      r := new ScalarCell(Add(Mul(r.v, xs), coeffs[i].v));
      i := i - 1;
    }
    HornerDone(vs, x, r.v);
  }

  method LoadCells(u: Suite, raw: Bytes, t: nat) returns (r: Result<seq<ScalarCell>>)
    ensures r.Ok? <==> LoadCoeffs(u, raw, t).Ok?
    ensures r.Ok? ==> fresh(r.value) && |r.value| == t && LoadCoeffs(u, raw, t) == Ok(Values(r.value))
  {
    if |raw| != t * 32 {
      return Err;
    }
    var coeffs: seq<ScalarCell> := [];
    for i := 0 to t
      invariant |coeffs| == i && fresh(coeffs)
      invariant ParseCoeffs(u, raw, i) == Ok(Values(coeffs))
    {
      match u.decScalar(raw[i * 32..(i + 1) * 32])
      case None =>
        ParseStops(u, raw, i + 1, t);
        return Err;
      case Some(s) =>
        var c := new ScalarCell(s);
        assert (coeffs + [c])[..i] == coeffs;
        coeffs := coeffs + [c];
    }
    return Ok(coeffs);
  }

  lemma {:induction false} ParseStops(u: Suite, raw: Bytes, i: nat, n: nat)
    requires i <= n && n * 32 <= |raw| && ParseCoeffs(u, raw, i).Err?
    ensures ParseCoeffs(u, raw, n).Err?
  {
    if i < n {
      ParseStops(u, raw, i, n - 1);
    }
  }

  method SearchPayload(ps: seq<WirePayload>, a: Address) returns (r: Option<WirePayload>)
    ensures r == FindPayload(ps, a)
  {
    for i := 0 to |ps|
      invariant FindPayload(ps, a) == FindPayload(ps[i..], a)
    {
      if ps[i].to == a {
        return Some(ps[i]);
      }
    }
    return None;
  }

  method ReceiveShare(u: Suite, sk: Scalar, c: WireContribution, a: Address, index: int) returns (r: Result<Scalar>)
    ensures r == ReceivedShare(u, sk, c, a, index)
  {
    var payload := SearchPayload(c.payloads, a);
    if payload.None? {
      return Err;
    }
    var eph := UnmarshalPublicKey(u, payload.value.ephemeralPk);
    if eph.Err? {
      return Err;
    }
    var bytes := Decrypt(u, sk, Envelope(eph.value, payload.value.ciphertext));
    if bytes.Err? {
      return Err;
    }
    var share := UnmarshalSecretKey(u, bytes.value);
    if share.Err? {
      return Err;
    }
    var commitments := DeserializeCommitments(u, c.commitments);
    if commitments.Err? {
      return Err;
    }
    var ok := VerifyFeldmanShare(Generator, commitments.value, index, share.value);
    if ok.Err? || !ok.value {
      return Err;
    }
    return Ok(share.value);
  }

  ghost predicate OnlyOwn(cs: seq<WireContribution>, a: Address) {
    forall i :: 0 <= i < |cs| ==> cs[i].from == a
  }

  lemma {:induction false} SumStops(u: Suite, sk: Scalar, cs: seq<WireContribution>, a: Address, index: int,
                                    own: Scalar, i: nat)
    requires i <= |cs| && SumReceived(u, sk, cs[..i], a, index, own).Err?
    ensures SumReceived(u, sk, cs, a, index, own).Err?
    decreases |cs|
  {
    if i < |cs| {
      var n := |cs| - 1;
      assert cs[..n][..i] == cs[..i];
      SumStops(u, sk, cs[..n], a, index, own, i);
    } else {
      assert cs[..i] == cs;
    }
  }

  /** Adds up the shares. The result object is a new one unless nothing was added to the own share. */
  method SumShares(u: Suite, sk: Scalar, cs: seq<WireContribution>, a: Address, index: int, own: ScalarCell)
    returns (r: Result<ScalarCell>)
    ensures r.Ok? <==> SumReceived(u, sk, cs, a, index, own.v).Ok?
    ensures r.Ok? ==> SumReceived(u, sk, cs, a, index, own.v) == Ok(r.value.v)
    ensures r.Ok? ==> if OnlyOwn(cs, a) then r.value == own else fresh(r.value)
  {
    var combined := own;
    ghost var start := own.v;
    for i := 0 to |cs|
      invariant own.v == start && SumReceived(u, sk, cs[..i], a, index, start) == Ok(combined.v)
      invariant if OnlyOwn(cs[..i], a) then combined == own else fresh(combined)
    {
      assert cs[..i + 1][..i] == cs[..i];
      if cs[i].from != a {
        var share := ReceiveShare(u, sk, cs[i], a, index);
        if share.Err? {
          SumStops(u, sk, cs, a, index, start, i + 1);
          return Err;
        }
        var cell := new ScalarCell(share.value);
        combined := new ScalarCell(Add(combined.v, cell.v));
        cell.Zero();
        assert !OnlyOwn(cs[..i + 1], a) by { assert cs[..i + 1][i].from != a; }
      } else {
        assert OnlyOwn(cs[..i + 1], a) <==> OnlyOwn(cs[..i], a) by {
          assert forall k :: 0 <= k < i ==> cs[..i + 1][k] == cs[..i][k];
        }
      }
    }
    assert cs[..|cs|] == cs;
    return Ok(combined);
  }

  /** Everything between loading the coefficients and their deferred wiping. */
  method RecoverShare(u: Suite, sk: Scalar, r: DealtRound, a: Address, index: int, coeffs: seq<ScalarCell>)
    returns (res: Result<(Bytes, ScalarCell)>)
    requires |coeffs| == r.threshold > 0
    ensures var s := RecoveredValue(u, sk, r, a, index, Values(coeffs));
      && (res.Ok? <==> s.Ok?)
      && (res.Ok? ==> res.value.0 == u.encScalar(s.value) && res.value.1.v == s.value)
    ensures res.Ok? ==>
      if |coeffs| == 1 && OnlyOwn(r.contributions, a) then res.value.1 == coeffs[0] else fresh(res.value.1)
  {
    var own := EvalCells(coeffs, index);
    var combined := SumShares(u, sk, r.contributions, a, index, own);
    if combined.Err? {
      return Err;
    }
    var commitments := DeserializeCommitments(u, r.commitments);
    if commitments.Err? {
      return Err;
    }
    var ok := VerifyFeldmanShare(Generator, commitments.value, index, combined.value.v);
    if ok.Err? || !ok.value {
      return Err;
    }
    return Ok((u.encScalar(combined.value.v), combined.value));
  }

  ghost function RecoveredValue(u: Suite, sk: Scalar, r: DealtRound, a: Address, index: int,
                                coeffs: seq<Scalar>): Result<Scalar> {
    match SumReceived(u, sk, r.contributions, a, index, Reduce(Eval(coeffs, index)))
    case Err => Err
    case Ok(sum) =>
      if !Decodable(u, r.commitments) || index <= 0 then Err
      else if !ShareMatches(Generator, DecodePoints(u, r.commitments), index, sum) then Err
      else Ok(sum)
  }

  /** The handler's recovery, including the wiping of the coefficient objects on return. The returned
      bytes encode the recovered share in every case. The returned scalar object holds it too, except
      when the round has threshold one and no other contributor: there it is the coefficient object
      itself and has been wiped. */
  method AckDKGRound(u: Suite, sk: Scalar, r: DealtRound, a: Address, index: int, file: Option<Bytes>)
    returns (res: Result<(Bytes, ScalarCell)>)
    requires r.threshold > 0
    ensures res.Ok? <==> file.Some? && AckShare(u, sk, r, a, index, file.value).Ok?
    ensures res.Ok? ==> res.value.0 == u.encScalar(AckShare(u, sk, r, a, index, file.value).value)
    ensures res.Ok? ==> fresh(res.value.1)
    ensures res.Ok? ==> var wiped := r.threshold == 1 && OnlyOwn(r.contributions, a);
      res.value.1.v == if wiped then 0 else AckShare(u, sk, r, a, index, file.value).value
  {
    hide AckShare, RecoveredValue, OnlyOwn, LoadCoeffs;
    if file.None? {
      return Err;
    }
    AckShareIsRecovered(u, sk, r, a, index, file.value);
    var loaded := LoadCells(u, file.value, r.threshold);
    if loaded.Err? {
      return Err;
    }
    var coeffs := loaded.value;
    res := RecoverShare(u, sk, r, a, index, coeffs);
    ZeroAll(coeffs);
  }

  method ZeroAll(cells: seq<ScalarCell>)
    modifies cells
    ensures forall c :: c in cells ==> c.v == 0
  {
    for i := 0 to |cells|
      invariant forall k :: 0 <= k < i ==> cells[k].v == 0
    {
      cells[i].Zero();
    }
  }

  lemma AckShareIsRecovered(u: Suite, sk: Scalar, r: DealtRound, a: Address, index: int, file: Bytes)
    requires r.threshold > 0
    ensures AckShare(u, sk, r, a, index, file) ==
      match LoadCoeffs(u, file, r.threshold)
      case Err => Err
      case Ok(coeffs) => RecoveredValue(u, sk, r, a, index, coeffs)
  {
    hide LoadCoeffs, SumReceived, Decodable, ShareMatches, Reduce, Eval;
  }
}
