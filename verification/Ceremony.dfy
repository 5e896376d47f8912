/** The joint key generation as the validators run it (app/prepare_proposal_ceremony.go): dealing a
    contribution, and recovering and checking one's combined share from everybody's contributions. */
module Ceremony {
  import opened Field
  import opened Polynomial
  import opened Group
  import opened Feldman
  import opened Shamir
  import opened ByteStrings
  import opened Ecies
  import opened Round

  datatype WirePayload = WirePayload(to: Address, ephemeralPk: Bytes, ciphertext: Bytes)

  datatype WireContribution = WireContribution(from: Address, commitments: seq<Bytes>, payloads: seq<WirePayload>)

  /** The parts of a dealt round that an acknowledging validator reads. */
  datatype DealtRound = DealtRound(threshold: nat, commitments: seq<Bytes>, contributions: seq<WireContribution>)

  // ----- coefficient files

  function WriteCoeffs(u: Suite, coeffs: seq<Scalar>): Bytes {
    if coeffs == [] then [] else WriteCoeffs(u, coeffs[..|coeffs| - 1]) + u.encScalar(coeffs[|coeffs| - 1])
  }

  /** The first n scalars of the file, or Err if one does not decode. */
  function ParseCoeffs(u: Suite, raw: Bytes, n: nat): Result<seq<Scalar>>
    requires n * 32 <= |raw|
  {
    if n == 0 then Ok([])
    else match ParseCoeffs(u, raw, n - 1)
      case Err => Err
      case Ok(front) =>
        match u.decScalar(raw[(n - 1) * 32..n * 32])
        case None => Err
        case Some(s) => Ok(front + [s])
  }

  function LoadCoeffs(u: Suite, raw: Bytes, t: nat): Result<seq<Scalar>> {
    if |raw| != t * 32 then Err else ParseCoeffs(u, raw, t)
  }

  lemma {:induction false} WriteLength(u: Suite, coeffs: seq<Scalar>)
    requires Lawful(u)
    ensures |WriteCoeffs(u, coeffs)| == |coeffs| * 32
  {
    if coeffs != [] {
      WriteLength(u, coeffs[..|coeffs| - 1]);
    }
  }

  lemma {:induction false} ParseWritten(u: Suite, coeffs: seq<Scalar>, suffix: Bytes)
    requires Lawful(u)
    ensures |WriteCoeffs(u, coeffs)| == |coeffs| * 32
    ensures ParseCoeffs(u, WriteCoeffs(u, coeffs) + suffix, |coeffs|) == Ok(coeffs)
  {
    hide Lawful;
    WriteLength(u, coeffs);
    if coeffs != [] {
      var n := |coeffs| - 1;
      var front, last := WriteCoeffs(u, coeffs[..n]), u.encScalar(coeffs[n]);
      ScalarEncoding(u, coeffs[n]);
      WriteLength(u, coeffs[..n]);
      ParseWritten(u, coeffs[..n], last + suffix);
      BlockAt(front, last, suffix, n);
      assert coeffs[..n] + [coeffs[n]] == coeffs;
    }
  }

  lemma ScalarEncoding(u: Suite, s: Scalar)
    requires Lawful(u)
    ensures |u.encScalar(s)| == 32 && u.decScalar(u.encScalar(s)) == Some(s)
  {
  }

  lemma BlockAt(front: Bytes, block: Bytes, suffix: Bytes, n: nat)
    requires |front| == n * 32 && |block| == 32
    ensures front + block + suffix == front + (block + suffix)
    ensures (front + block + suffix)[n * 32..(n + 1) * 32] == block
  {
  }

  /** The coefficient file round trip. */
  lemma LoadWritten(u: Suite, coeffs: seq<Scalar>)
    requires Lawful(u)
    ensures LoadCoeffs(u, WriteCoeffs(u, coeffs), |coeffs|) == Ok(coeffs)
  {
    ParseWritten(u, coeffs, []);
    assert WriteCoeffs(u, coeffs) + [] == WriteCoeffs(u, coeffs);
  }

  lemma {:induction false} ParseExact(u: Suite, raw: Bytes, n: nat, cs: seq<Scalar>)
    requires n * 32 <= |raw|
    ensures ParseCoeffs(u, raw, n) == Ok(cs) <==>
      |cs| == n && forall i :: 0 <= i < n ==> u.decScalar(raw[i * 32..(i + 1) * 32]) == Some(cs[i])
  {
    if n > 0 {
      if cs != [] {
        var m := |cs| - 1;
        ParseExact(u, raw, n - 1, cs[..m]);
        assert cs == cs[..m] + [cs[m]];
      }
      var front := ParseCoeffs(u, raw, n - 1);
      if front.Ok? {
        ParseExact(u, raw, n - 1, front.value);
      }
      if ParseCoeffs(u, raw, n) == Ok(cs) {
        assert cs[..|cs| - 1] == front.value;
      }
    }
  }

  /** A file loads as the given coefficients if and only if it is exactly as long as the threshold asks and
      each 32-byte block decodes to its coefficient. */
  lemma LoadExact(u: Suite, raw: Bytes, t: nat, cs: seq<Scalar>)
    ensures LoadCoeffs(u, raw, t) == Ok(cs) <==>
      && |raw| == 32 * t && |cs| == t
      && forall i :: 0 <= i < t ==> i * 32 + 32 <= |raw| && u.decScalar(raw[i * 32..(i + 1) * 32]) == Some(cs[i])
  {
    if |raw| == t * 32 {
      ParseExact(u, raw, t, cs);
    }
  }

  // ----- commitments on the wire

  function EncodePoints(u: Suite, ps: seq<Point>): (raw: seq<Bytes>)
    ensures |raw| == |ps|
  {
    seq(|ps|, i requires 0 <= i < |ps| => u.encPoint(ps[i]))
  }

  ghost predicate AllDecode(u: Suite, raw: seq<Bytes>) {
    forall i :: 0 <= i < |raw| ==> u.decPoint(raw[i]).Some?
  }

  ghost function DecodePoints(u: Suite, raw: seq<Bytes>): (ps: seq<Point>)
    requires AllDecode(u, raw)
    ensures |ps| == |raw|
  {
    seq(|raw|, i requires 0 <= i < |raw| => u.decPoint(raw[i]).value)
  }

  ghost predicate Decodable(u: Suite, raw: seq<Bytes>) {
    raw != [] && AllDecode(u, raw)
  }

  method DeserializeCommitments(u: Suite, raw: seq<Bytes>) returns (r: Result<seq<Point>>)
    ensures r.Ok? <==> Decodable(u, raw)
    ensures r.Ok? ==> r.value == DecodePoints(u, raw)
  {
    if |raw| == 0 {
      return Err;
    }
    var pts: seq<Point> := [];
    for i := 0 to |raw|
      invariant AllDecode(u, raw[..i])
      invariant pts == DecodePoints(u, raw[..i])
    {
      match u.decPoint(raw[i])
      case None =>
        return Err;
      case Some(p) =>
        pts := pts + [p];
    }
    assert raw[..|raw|] == raw;
    return Ok(pts);
  }

  lemma DecodeEncoded(u: Suite, ps: seq<Point>)
    requires Lawful(u) && ps != []
    ensures Decodable(u, EncodePoints(u, ps)) && DecodePoints(u, EncodePoints(u, ps)) == ps
  {
  }

  // ----- receiving one share

  function FindPayload(ps: seq<WirePayload>, a: Address): Option<WirePayload> {
    if ps == [] then None
    else if ps[0].to == a then Some(ps[0])
    else FindPayload(ps[1..], a)
  }

  /** The first payload addressed to a, or None exactly when there is none. */
  lemma {:induction false} FindPayloadExact(ps: seq<WirePayload>, a: Address)
    ensures match FindPayload(ps, a)
      case None => forall i :: 0 <= i < |ps| ==> ps[i].to != a
      case Some(p) => exists i :: 0 <= i < |ps| && ps[i] == p && p.to == a && forall j :: 0 <= j < i ==> ps[j].to != a
  {
    if ps != [] && ps[0].to != a {
      FindPayloadExact(ps[1..], a);
      assert forall i :: 1 <= i < |ps| ==> ps[i] == ps[1..][i - 1];
      if FindPayload(ps, a).Some? {
        var p := FindPayload(ps, a).value;
        var i :| 0 <= i < |ps[1..]| && ps[1..][i] == p && p.to == a && forall j :: 0 <= j < i ==> ps[1..][j].to != a;
        assert ps[i + 1] == p;
      }
    }
  }

  /** What the validator `a` with secret key sk and the given index accepts from one contributor. */
  ghost function ReceivedShare(u: Suite, sk: Scalar, c: WireContribution, a: Address, index: int): Result<Scalar> {
    match FindPayload(c.payloads, a)
    case None => Err
    case Some(p) =>
      match UnmarshalPublicKey(u, p.ephemeralPk)
      case Err => Err
      case Ok(eph) =>
        match Decrypt(u, sk, Envelope(eph, p.ciphertext))
        case Err => Err
        case Ok(bytes) =>
          match UnmarshalSecretKey(u, bytes)
          case Err => Err
          case Ok(share) =>
            if !Decodable(u, c.commitments) || index <= 0 then Err
            else if !ShareMatches(Generator, DecodePoints(u, c.commitments), index, share) then Err
            else Ok(share)
  }

  /** The own share plus everything received, in list order. */
  ghost function SumReceived(u: Suite, sk: Scalar, cs: seq<WireContribution>, a: Address, index: int,
                             own: Scalar): Result<Scalar> {
    if cs == [] then Ok(own)
    else
      var last := cs[|cs| - 1];
      match SumReceived(u, sk, cs[..|cs| - 1], a, index, own)
      case Err => Err
      case Ok(sum) =>
        if last.from == a then Ok(sum)
        else match ReceivedShare(u, sk, last, a, index)
          case Err => Err
          case Ok(share) => Ok(Add(sum, share))
  }

  /** The whole recovery: own share from the file, others' shares, and the combined check. */
  ghost function AckShare(u: Suite, sk: Scalar, r: DealtRound, a: Address, index: int, file: Bytes): Result<Scalar>
    requires r.threshold > 0
  {
    match LoadCoeffs(u, file, r.threshold)
    case Err => Err
    case Ok(coeffs) =>
      match SumReceived(u, sk, r.contributions, a, index, Reduce(Eval(coeffs, index)))
      case Err => Err
      case Ok(sum) =>
        if !Decodable(u, r.commitments) || index <= 0 then Err
        else if !ShareMatches(Generator, DecodePoints(u, r.commitments), index, sum) then Err
        else Ok(sum)
  }

  // ----- soundness of the recovery

  /** Whatever is on disk and in the round, a recovered share answers to the stored commitments: times G
      it is their value at the index. */
  lemma RecoveredShareSound(u: Suite, sk: Scalar, r: DealtRound, a: Address, index: int, file: Bytes)
    requires r.threshold > 0 && AckShare(u, sk, r, a, index, file).Ok?
    ensures index > 0 && r.commitments != [] && AllDecode(u, r.commitments)
    ensures PMul(Generator, AckShare(u, sk, r, a, index, file).value)
         == CommitmentAt(DecodePoints(u, r.commitments), index)
  {
    hide LoadCoeffs, SumReceived, CommitmentAt, PMul;
  }

  /** A share received from a contributor answers to that contributor's commitments and is not zero. */
  lemma ReceivedShareSound(u: Suite, sk: Scalar, c: WireContribution, a: Address, index: int)
    requires ReceivedShare(u, sk, c, a, index).Ok?
    ensures index > 0 && c.commitments != [] && AllDecode(u, c.commitments)
    ensures ReceivedShare(u, sk, c, a, index).value != 0
    ensures PMul(Generator, ReceivedShare(u, sk, c, a, index).value)
         == CommitmentAt(DecodePoints(u, c.commitments), index)
  {
    hide CommitmentAt, PMul, Decrypt, FindPayload;
  }

  ghost predicate AllDecodable(u: Suite, cs: seq<WireContribution>, t: nat) {
    forall i :: 0 <= i < |cs| ==> Decodable(u, cs[i].commitments) && |cs[i].commitments| == t
  }

  ghost function Vectors(u: Suite, cs: seq<WireContribution>, t: nat): (vs: seq<seq<Point>>)
    requires AllDecodable(u, cs, t)
    ensures |vs| == |cs| && SameLength(vs, t)
  {
    seq(|cs|, i requires 0 <= i < |cs| => DecodePoints(u, cs[i].commitments))
  }

  /** The shares received by everybody but `a` add up to the committed values of those contributors. */
  ghost function OthersAt(u: Suite, cs: seq<WireContribution>, t: nat, a: Address, index: int): int
    requires AllDecodable(u, cs, t)
  {
    if cs == [] then 0
    else
      var n := |cs| - 1;
      OthersAt(u, cs[..n], t, a, index)
      + if cs[n].from == a then 0 else Eval(Logs(DecodePoints(u, cs[n].commitments)), index)
  }

  lemma MatchingShareLog(cs: seq<Point>, index: int, share: Scalar)
    requires ShareMatches(Generator, cs, index, share)
    ensures share == Reduce(Eval(Logs(cs), index))
  {
    GeneratorMul(share);
  }

  lemma AddReduced(sum: Scalar, x: int, share: Scalar, y: int)
    requires sum == Reduce(x) && share == Reduce(y)
    ensures Add(sum, share) == Reduce(x + y)
  {
    CongReduce(x);
    CongReduce(y);
    CongAdd(Reduce(x), x, Reduce(y), y);
    CongIffReduce(Reduce(x) + Reduce(y), x + y);
  }

  lemma {:induction false} SumReceivedValue(u: Suite, sk: Scalar, cs: seq<WireContribution>, t: nat, a: Address,
                                            index: int, own: Scalar, e: int)
    requires AllDecodable(u, cs, t) && own == Reduce(e)
    requires SumReceived(u, sk, cs, a, index, own).Ok?
    ensures SumReceived(u, sk, cs, a, index, own).value == Reduce(e + OthersAt(u, cs, t, a, index))
  {
    if cs != [] {
      var n := |cs| - 1;
      SumReceivedValue(u, sk, cs[..n], t, a, index, own, e);
      if cs[n].from != a {
        var share := ReceivedShare(u, sk, cs[n], a, index).value;
        var ps := DecodePoints(u, cs[n].commitments);
        MatchingShareLog(ps, index, share);
        var sum := SumReceived(u, sk, cs[..n], a, index, own).value;
        AddReduced(sum, e + OthersAt(u, cs[..n], t, a, index), share, Eval(Logs(ps), index));
      }
    }
  }

  /** With exactly one contribution of a's own, the others and that one make up the whole sum. */
  lemma {:induction false} OthersPlusOwn(u: Suite, cs: seq<WireContribution>, t: nat, a: Address, index: int, j: nat)
    requires AllDecodable(u, cs, t) && j < |cs| && cs[j].from == a
    requires forall i :: 0 <= i < |cs| && i != j ==> cs[i].from != a
    ensures SumAt(Vectors(u, cs, t), index)
         == OthersAt(u, cs, t, a, index) + Eval(Logs(DecodePoints(u, cs[j].commitments)), index)
    decreases |cs|
  {
    var n := |cs| - 1;
    assert Vectors(u, cs, t)[..n] == Vectors(u, cs[..n], t);
    if j == n {
      OthersOnly(u, cs[..n], t, a, index);
    } else {
      OthersPlusOwn(u, cs[..n], t, a, index, j);
    }
  }

  lemma {:induction false} OthersOnly(u: Suite, cs: seq<WireContribution>, t: nat, a: Address, index: int)
    requires AllDecodable(u, cs, t)
    requires forall i :: 0 <= i < |cs| ==> cs[i].from != a
    ensures SumAt(Vectors(u, cs, t), index) == OthersAt(u, cs, t, a, index)
    decreases |cs|
  {
    if cs != [] {
      var n := |cs| - 1;
      assert Vectors(u, cs, t)[..n] == Vectors(u, cs[..n], t);
      OthersOnly(u, cs[..n], t, a, index);
    }
  }

  /** The facts an acknowledging validator relies on: its own contribution, at position j, commits to
      its stored coefficients, and the round's commitments are the combined ones. */
  ghost predicate OwnAndCombined(u: Suite, r: DealtRound, a: Address, coeffs: seq<Scalar>, j: nat) {
    && AllDecodable(u, r.contributions, r.threshold) && r.threshold > 0
    && j < |r.contributions| && r.contributions[j].from == a
    && (forall i :: 0 <= i < |r.contributions| && i != j ==> r.contributions[i].from != a)
    && DecodePoints(u, r.contributions[j].commitments) == Commit(Generator, coeffs)
    && Decodable(u, r.commitments)
    && DecodePoints(u, r.commitments) == CombinedVector(Vectors(u, r.contributions, r.threshold), r.threshold)
  }

  /** The round's commitments are the combined ones, and a contributed exactly once, at position j. */
  ghost predicate OwnContribution(u: Suite, r: DealtRound, a: Address, j: nat) {
    && AllDecodable(u, r.contributions, r.threshold) && r.threshold > 0
    && j < |r.contributions| && r.contributions[j].from == a
    && (forall i :: 0 <= i < |r.contributions| && i != j ==> r.contributions[i].from != a)
    && Decodable(u, r.commitments)
    && DecodePoints(u, r.commitments) == CombinedVector(Vectors(u, r.contributions, r.threshold), r.threshold)
  }

  /** When every received share passed and the round's commitments are the combined ones, recovery
      succeeds if and only if the file's polynomial and the one a committed to agree at the index modulo q. */
  lemma RecoveryExact(u: Suite, sk: Scalar, r: DealtRound, a: Address, index: int, file: Bytes, coeffs: seq<Scalar>,
                      j: nat)
    requires OwnContribution(u, r, a, j) && index > 0 && LoadCoeffs(u, file, r.threshold) == Ok(coeffs)
    requires SumReceived(u, sk, r.contributions, a, index, Reduce(Eval(coeffs, index))).Ok?
    ensures AckShare(u, sk, r, a, index, file).Ok? <==>
      Cong(Eval(coeffs, index), Eval(Logs(DecodePoints(u, r.contributions[j].commitments)), index))
  {
    hide LoadCoeffs, Cong, Columns, CombinedVector, Reduce, Eval;
    var t, cs := r.threshold, r.contributions;
    var own, mine := Eval(coeffs, index), Eval(Logs(DecodePoints(u, cs[j].commitments)), index);
    var others := OthersAt(u, cs, t, a, index);
    var sum := SumReceived(u, sk, cs, a, index, Reduce(own)).value;
    SumReceivedValue(u, sk, cs, t, a, index, Reduce(own), own);
    OthersPlusOwn(u, cs, t, a, index, j);
    CombinedAt(Vectors(u, cs, t), t, index);
    GeneratorMul(sum);
    CongIffReduce(own + others, others + mine);
    SharedTerm(own, mine, others);
  }

  lemma SharedTerm(x: int, y: int, z: int)
    ensures Cong(x + z, z + y) <==> Cong(x, y)
  {
    assert x + z - (z + y) == x - y;
  }

  /** An instance: the coefficient file of another attempt. The sole validator committed to 1*G but its file
      holds 0, and nothing is recovered. */
  lemma StaleFileRefused(u: Suite, sk: Scalar)
    requires Lawful(u)
    ensures var raw := EncodePoints(u, [Generator]);
      var r := DealtRound(1, raw, [WireContribution("val", raw, [])]);
      AckShare(u, sk, r, "val", 1, WriteCoeffs(u, [0])).Err?
  {
    var raw := EncodePoints(u, [Generator]);
    var r := DealtRound(1, raw, [WireContribution("val", raw, [])]);
    DecodeEncoded(u, [Generator]);
    if AckShare(u, sk, r, "val", 1, WriteCoeffs(u, [0])).Ok? {
      LoadWritten(u, [0]);
      hide Lawful;
      RecoveredShareSound(u, sk, r, "val", 1, WriteCoeffs(u, [0]));
      SoleSum(u, sk, r.contributions);
      SingleValue(0);
      SingleValue(1);
      GeneratorMul(0);
    }
  }

  lemma SoleSum(u: Suite, sk: Scalar, cs: seq<WireContribution>)
    requires |cs| == 1 && cs[0].from == "val"
    ensures forall own: Scalar :: SumReceived(u, sk, cs, "val", 1, own) == Ok(own)
  {
    assert cs[..0] == [];
  }

  lemma SingleValue(x: Scalar)
    ensures Reduce(Eval([x], 1)) == x
    ensures CommitmentAt([Point(x)], 1) == Point(x)
  {
    assert [x][1..] == [] && Eval([x], 1) == x;
    ReduceScalar(x);
    assert Logs([Point(x)]) == [x];
  }

  lemma OwnCommitment(coeffs: seq<Scalar>)
    ensures Logs(Commit(Generator, coeffs)) == coeffs
  {
    forall i | 0 <= i < |coeffs| ensures Logs(Commit(Generator, coeffs))[i] == coeffs[i] {
      GeneratorMul(coeffs[i]);
    }
  }

  /** Soundness of the acknowledgement: once every other share has passed its own check, the combined
      check cannot fail, and the result is the only scalar that passes it for this index. */
  lemma CombinedCheckCannotFail(u: Suite, sk: Scalar, r: DealtRound, a: Address, index: int, file: Bytes,
                                coeffs: seq<Scalar>, j: nat, other: Scalar)
    requires OwnAndCombined(u, r, a, coeffs, j) && index > 0
    requires LoadCoeffs(u, file, r.threshold) == Ok(coeffs)
    requires SumReceived(u, sk, r.contributions, a, index, Reduce(Eval(coeffs, index))).Ok?
    ensures AckShare(u, sk, r, a, index, file)
         == Ok(Reduce(SumAt(Vectors(u, r.contributions, r.threshold), index)))
    ensures ShareMatches(Generator, DecodePoints(u, r.commitments), index, other) ==>
      AckShare(u, sk, r, a, index, file) == Ok(other)
  {
    var t, cs := r.threshold, r.contributions;
    var own := Reduce(Eval(coeffs, index));
    var sum := SumReceived(u, sk, cs, a, index, own).value;
    SumReceivedValue(u, sk, cs, t, a, index, own, Eval(coeffs, index));
    OthersPlusOwn(u, cs, t, a, index, j);
    OwnCommitment(coeffs);
    CombinedAt(Vectors(u, cs, t), t, index);
    GeneratorMul(sum);
    GeneratorMul(other);
  }
}
