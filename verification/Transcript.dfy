/** The byte strings that get hashed and signed, and why they determine what they describe
    (crypto/elgamal/dkg_pop.go and e2e-tests/src/sighash.rs). */
module Transcript {
  import opened Field
  import opened ByteStrings

  // ----- fixed-width integers

  function Pow256(k: nat): nat {
    if k == 0 then 1 else 256 * Pow256(k - 1)
  }

  /** k bytes, most significant first. */
  function BigEndian(n: nat, k: nat): (b: Bytes)
    ensures |b| == k
  {
    if k == 0 then [] else BigEndian(n / 256, k - 1) + [n % 256]
  }

  /** k bytes, least significant first. */
  function LittleEndian(n: nat, k: nat): (b: Bytes)
    ensures |b| == k
  {
    if k == 0 then [] else [n % 256] + LittleEndian(n / 256, k - 1)
  }

  /** The number that bytes denote, most significant first. */
  function BigValue(b: Bytes): nat {
    if b == [] then 0 else 256 * BigValue(b[..|b| - 1]) + b[|b| - 1]
  }

  /** The number that bytes denote, least significant first. */
  function LittleValue(b: Bytes): nat {
    if b == [] then 0 else b[0] + 256 * LittleValue(b[1..])
  }

  lemma {:induction false} BigEndianDenotes(n: nat, k: nat)
    requires n < Pow256(k)
    ensures BigValue(BigEndian(n, k)) == n
  {
    if k > 0 {
      BigEndianDenotes(n / 256, k - 1);
      assert BigEndian(n, k)[..k - 1] == BigEndian(n / 256, k - 1);
    }
  }

  lemma {:induction false} LittleEndianDenotes(n: nat, k: nat)
    requires n < Pow256(k)
    ensures LittleValue(LittleEndian(n, k)) == n
  {
    if k > 0 {
      LittleEndianDenotes(n / 256, k - 1);
      assert LittleEndian(n, k)[1..] == LittleEndian(n / 256, k - 1);
    }
  }

  lemma {:induction false} BigEndianInjective(n: nat, m: nat, k: nat)
    requires n < Pow256(k) && m < Pow256(k) && BigEndian(n, k) == BigEndian(m, k)
    ensures n == m
  {
    if k > 0 {
      var a, b := BigEndian(n / 256, k - 1), BigEndian(m / 256, k - 1);
      assert BigEndian(n, k)[k - 1] == n % 256 && BigEndian(m, k)[k - 1] == m % 256;
      assert a == BigEndian(n, k)[..k - 1] == BigEndian(m, k)[..k - 1] == b;
      BigEndianInjective(n / 256, m / 256, k - 1);
    }
  }

  lemma {:induction false} LittleEndianInjective(n: nat, m: nat, k: nat)
    requires n < Pow256(k) && m < Pow256(k) && LittleEndian(n, k) == LittleEndian(m, k)
    ensures n == m
  {
    if k > 0 {
      var a, b := LittleEndian(n / 256, k - 1), LittleEndian(m / 256, k - 1);
      assert LittleEndian(n, k)[0] == n % 256 && LittleEndian(m, k)[0] == m % 256;
      assert a == LittleEndian(n, k)[1..] == LittleEndian(m, k)[1..] == b;
      LittleEndianInjective(n / 256, m / 256, k - 1);
    }
  }

  // ----- length-prefixed fields

  /** Every slice in the source is shorter than 2^64. */
  predicate Short(b: Bytes) {
    |b| < Pow256(8)
  }

  function ProofField(b: Bytes): Bytes {
    BigEndian(|b|, 8) + b
  }

  /** A length-prefixed field can be split off the front of any byte string in one way only. */
  lemma FieldSplits(a: Bytes, x: Bytes, b: Bytes, y: Bytes)
    requires Short(a) && Short(b) && ProofField(a) + x == ProofField(b) + y
    ensures a == b && x == y
  {
    var s, t := ProofField(a) + x, ProofField(b) + y;
    assert s[..8] == BigEndian(|a|, 8) && t[..8] == BigEndian(|b|, 8);
    BigEndianInjective(|a|, |b|, 8);
    assert s[8..8 + |a|] == a && t[8..8 + |a|] == b;
    assert s[8 + |a|..] == x && t[8 + |a|..] == y;
  }

  function Fields(fs: seq<Bytes>): Bytes {
    if fs == [] then [] else ProofField(fs[0]) + Fields(fs[1..])
  }

  ghost predicate AllShort(fs: seq<Bytes>) {
    forall i :: 0 <= i < |fs| ==> Short(fs[i])
  }

  lemma {:induction false} FieldsSplit(fs: seq<Bytes>, x: Bytes, gs: seq<Bytes>, y: Bytes)
    requires AllShort(fs) && AllShort(gs) && |fs| == |gs| && Fields(fs) + x == Fields(gs) + y
    ensures fs == gs && x == y
  {
    hide ProofField;
    if fs == [] {
      assert Fields(fs) + x == x && Fields(gs) + y == y;
    } else {
      assert Fields(fs) + x == ProofField(fs[0]) + (Fields(fs[1..]) + x);
      assert Fields(gs) + y == ProofField(gs[0]) + (Fields(gs[1..]) + y);
      FieldSplits(fs[0], Fields(fs[1..]) + x, gs[0], Fields(gs[1..]) + y);
      FieldsSplit(fs[1..], x, gs[1..], y);
      assert fs == [fs[0]] + fs[1..] && gs == [gs[0]] + gs[1..];
    }
  }

  lemma {:induction false} FieldsAppend(fs: seq<Bytes>, f: Bytes)
    ensures Fields(fs + [f]) == Fields(fs) + ProofField(f)
  {
    if fs == [] {
      assert fs + [f] == [f] && Fields([f]) == ProofField(f) + Fields([]);
    } else {
      assert (fs + [f])[1..] == fs[1..] + [f];
      FieldsAppend(fs[1..], f);
    }
  }

  // ----- the constant-term proof

  /** What a dealer's proof of knowledge is bound to. */
  datatype Binding = Binding(chainId: Bytes, roundId: Bytes, dealer: Bytes, commitments: seq<Bytes>, r: Bytes)

  ghost predicate ShortBinding(b: Binding) {
    Short(b.chainId) && Short(b.roundId) && Short(b.dealer) && AllShort(b.commitments) && Short(b.r)
    && |b.commitments| < Pow256(8)
  }

  /** "svote-dkg-constant-term-pok-v1" */
  const CONSTANT_TERM_DOMAIN: Bytes := [
    115, 118, 111, 116, 101, 45, 100, 107, 103, 45, 99, 111, 110, 115, 116, 97, 110, 116, 45,
    116, 101, 114, 109, 45, 112, 111, 107, 45, 118, 49]

  function Header(b: Binding, generator: Bytes): seq<Bytes> {
    [CONSTANT_TERM_DOMAIN, b.chainId, b.roundId, b.dealer, generator]
  }

  function Preimage(b: Binding, generator: Bytes): Bytes {
    Fields(Header(b, generator)) + (BigEndian(|b.commitments|, 8) + (Fields(b.commitments) + ProofField(b.r)))
  }

  method WriteFields(start: Bytes, fs: seq<Bytes>) returns (out: Bytes)
    ensures out == start + Fields(fs)
  {
    hide ProofField;
    out := start;
    for i := 0 to |fs|
      invariant out == start + Fields(fs[..i])
    {
      FieldsAppend(fs[..i], fs[i]);
      assert fs[..i + 1] == fs[..i] + [fs[i]];
      out := out + ProofField(fs[i]);
    }
    assert fs[..|fs|] == fs;
  }

  /** The hash input, written field by field. */
  method WritePreimage(b: Binding, generator: Bytes) returns (out: Bytes)
    ensures out == Preimage(b, generator)
  {
    hide Fields, ProofField, BigEndian;
    out := WriteFields([], Header(b, generator));
    out := out + BigEndian(|b.commitments|, 8);
    out := WriteFields(out, b.commitments);
    out := out + ProofField(b.r);
  }

  /** Different chain, round, dealer, commitment vector or nonce point: different hash input. */
  lemma PreimageInjective(a: Binding, b: Binding, generator: Bytes)
    requires ShortBinding(a) && ShortBinding(b) && Short(generator)
    requires Preimage(a, generator) == Preimage(b, generator)
    ensures a == b
  {
    var x := BigEndian(|a.commitments|, 8) + (Fields(a.commitments) + ProofField(a.r));
    var y := BigEndian(|b.commitments|, 8) + (Fields(b.commitments) + ProofField(b.r));
    DomainShort();
    FieldsSplit(Header(a, generator), x, Header(b, generator), y);
    SameHeader(a, b, generator);
    assert x[..8] == BigEndian(|a.commitments|, 8) && y[..8] == BigEndian(|b.commitments|, 8);
    BigEndianInjective(|a.commitments|, |b.commitments|, 8);
    assert x[8..] == Fields(a.commitments) + ProofField(a.r) && y[8..] == Fields(b.commitments) + ProofField(b.r);
    FieldsSplit(a.commitments, ProofField(a.r), b.commitments, ProofField(b.r));
    assert ProofField(a.r) + [] == ProofField(a.r) && ProofField(b.r) + [] == ProofField(b.r);
    FieldSplits(a.r, [], b.r, []);
  }

  // ----- reading a transcript back

  /** Splits a length-prefixed field off the front. */
  function ReadField(data: Bytes): Option<(Bytes, Bytes)> {
    if |data| < 8 then None
    else
      var n := BigValue(data[..8]);
      if |data| < 8 + n then None else Some((data[8..8 + n], data[8 + n..]))
  }

  function ReadFields(data: Bytes, n: nat): Option<(seq<Bytes>, Bytes)> {
    if n == 0 then Some(([], data))
    else match ReadField(data)
      case None => None
      case Some((f, rest)) =>
        match ReadFields(rest, n - 1)
        case None => None
        case Some((fs, rest')) => Some(([f] + fs, rest'))
  }

  /** Five header fields, a count, that many commitments, and the nonce point. */
  function ReadPreimage(data: Bytes): Option<(Bytes, Bytes, Binding)> {
    match ReadFields(data, 5)
    case None => None
    case Some((header, rest)) =>
      if |rest| < 8 || |header| != 5 then None
      else match ReadFields(rest[8..], BigValue(rest[..8]))
        case None => None
        case Some((commitments, last)) =>
          match ReadField(last)
          case None => None
          case Some((r, end)) =>
            if end != [] then None
            else Some((header[0], header[4], Binding(header[1], header[2], header[3], commitments, r)))
  }

  lemma ReadFieldBack(f: Bytes, rest: Bytes)
    requires Short(f)
    ensures ReadField(ProofField(f) + rest) == Some((f, rest))
  {
    var data := ProofField(f) + rest;
    assert data[..8] == BigEndian(|f|, 8);
    BigEndianDenotes(|f|, 8);
    assert data[8..8 + |f|] == f && data[8 + |f|..] == rest;
  }

  lemma {:induction false} ReadFieldsBack(fs: seq<Bytes>, rest: Bytes)
    requires AllShort(fs)
    ensures ReadFields(Fields(fs) + rest, |fs|) == Some((fs, rest))
  {
    hide ProofField, ReadField;
    if fs == [] {
      assert Fields(fs) + rest == rest;
    } else {
      assert Fields(fs) + rest == ProofField(fs[0]) + (Fields(fs[1..]) + rest);
      ReadFieldBack(fs[0], Fields(fs[1..]) + rest);
      ReadFieldsBack(fs[1..], rest);
      assert [fs[0]] + fs[1..] == fs;
    }
  }

  /** Read back in order, the hash input is the domain tag, chain, round, dealer, generator, the counted
      commitments and the nonce point, with nothing after them. */
  lemma PreimageReads(b: Binding, generator: Bytes)
    requires ShortBinding(b) && Short(generator)
    ensures ReadPreimage(Preimage(b, generator)) == Some((CONSTANT_TERM_DOMAIN, generator, b))
  {
    hide ReadFields, ReadField, Fields, ProofField, BigEndian, BigValue;
    var tail := Fields(b.commitments) + ProofField(b.r);
    var rest := BigEndian(|b.commitments|, 8) + tail;
    DomainShort();
    ReadFieldsBack(Header(b, generator), rest);
    assert rest[..8] == BigEndian(|b.commitments|, 8) && rest[8..] == tail;
    BigEndianDenotes(|b.commitments|, 8);
    ReadFieldsBack(b.commitments, ProofField(b.r));
    ReadFieldBack(b.r, []);
    assert ProofField(b.r) + [] == ProofField(b.r);
  }

  lemma DomainShort()
    ensures Short(CONSTANT_TERM_DOMAIN)
  {
    assert Pow256(8) == 256 * Pow256(7) && Pow256(7) == 256 * Pow256(6);
    assert Pow256(6) >= 1;
  }

  lemma SameHeader(a: Binding, b: Binding, generator: Bytes)
    requires Header(a, generator) == Header(b, generator)
    ensures a.chainId == b.chainId && a.roundId == b.roundId && a.dealer == b.dealer
  {
    var h, k := Header(a, generator), Header(b, generator);
    assert h[1] == k[1] && h[2] == k[2] && h[3] == k[3];
  }

  // ----- the batch signature digest

  type Bytes32 = b: Bytes | |b| == 32 witness seq(32, _ => 0)

  type Word32 = n: nat | n < 0x1_0000_0000

  datatype Effect = Effect(
    rVpk: Bytes32, vanNullifier: Bytes32, authorityNote: Bytes32, voteCommitment: Bytes32, proposalId: Word32)

  /** A 32-bit word in a zero-padded 32-byte field. */
  function WordField(n: nat): (b: Bytes)
    ensures |b| == 32
  {
    LittleEndian(n % 0x1_0000_0000, 4) + seq(28, _ => 0)
  }

  function EncodeEffect(index: nat, e: Effect): (b: Bytes)
    ensures |b| == 192
  {
    WordField(index) + (e.rVpk + (e.vanNullifier + (e.authorityNote + (e.voteCommitment + WordField(e.proposalId)))))
  }

  function EncodeEffects(es: seq<Effect>): Bytes {
    if es == [] then [] else EncodeEffects(es[..|es| - 1]) + EncodeEffect(|es| - 1, es[|es| - 1])
  }

  function Canonical(domain: Bytes, roundId: Bytes32, vanCmx: Bytes32, es: seq<Effect>): Bytes {
    domain + roundId + vanCmx + WordField(|es|) + EncodeEffects(es)
  }

  method WriteEffect(start: Bytes, index: nat, e: Effect) returns (out: Bytes)
    ensures out == start + EncodeEffect(index, e)
  {
    hide WordField;
    out := start + WordField(index);
    out := out + e.rVpk;
    out := out + e.vanNullifier;
    out := out + e.authorityNote;
    out := out + e.voteCommitment;
    out := out + WordField(e.proposalId);
  }

  method WriteCanonical(domain: Bytes, roundId: Bytes32, vanCmx: Bytes32, es: seq<Effect>) returns (out: Bytes)
    ensures out == Canonical(domain, roundId, vanCmx, es)
  {
    hide WordField, EncodeEffect;
    out := domain;
    out := out + roundId;
    out := out + vanCmx;
    out := out + WordField(|es|);
    ghost var start := out;
    for i := 0 to |es|
      invariant out == start + EncodeEffects(es[..i])
    {
      assert es[..i + 1][..i] == es[..i];
      out := WriteEffect(out, i, es[i]);
    }
    assert es[..|es|] == es;
  }

  lemma SplitAt(a: Bytes, x: Bytes, b: Bytes, y: Bytes)
    requires |a| == |b| && a + x == b + y
    ensures a == b && x == y
  {
    assert a == (a + x)[..|a|] && b == (b + y)[..|a|];
    assert x == (a + x)[|a|..] && y == (b + y)[|a|..];
  }

  lemma WordFieldInjective(n: Word32, m: Word32)
    requires WordField(n) == WordField(m)
    ensures n == m
  {
    hide LittleEndian;
    SplitAt(LittleEndian(n, 4), seq(28, _ => 0), LittleEndian(m, 4), seq(28, _ => 0));
    WordRange(n);
    WordRange(m);
    LittleEndianInjective(n, m, 4);
  }

  lemma WordRange(n: Word32)
    ensures n < Pow256(4)
  {
    assert Pow256(2) == 65536 && Pow256(4) == 65536 * Pow256(2);
  }

  lemma EffectInjective(i: nat, e: Effect, f: Effect)
    requires EncodeEffect(i, e) == EncodeEffect(i, f)
    ensures e == f
  {
    hide WordField;
    var e5, f5 := WordField(e.proposalId), WordField(f.proposalId);
    var e4, f4 := e.voteCommitment + e5, f.voteCommitment + f5;
    var e3, f3 := e.authorityNote + e4, f.authorityNote + f4;
    var e2, f2 := e.vanNullifier + e3, f.vanNullifier + f3;
    SplitAt(WordField(i), e.rVpk + e2, WordField(i), f.rVpk + f2);
    SplitAt(e.rVpk, e2, f.rVpk, f2);
    SplitAt(e.vanNullifier, e3, f.vanNullifier, f3);
    SplitAt(e.authorityNote, e4, f.authorityNote, f4);
    SplitAt(e.voteCommitment, e5, f.voteCommitment, f5);
    WordFieldInjective(e.proposalId, f.proposalId);
  }

  lemma {:induction false} EffectsLength(es: seq<Effect>)
    ensures |EncodeEffects(es)| == 192 * |es|
  {
    if es != [] {
      EffectsLength(es[..|es| - 1]);
    }
  }

  lemma {:induction false} EffectsInjective(es: seq<Effect>, fs: seq<Effect>)
    requires EncodeEffects(es) == EncodeEffects(fs)
    ensures es == fs
  {
    hide EncodeEffect;
    EffectsLength(es);
    EffectsLength(fs);
    if es != [] {
      var n := |es| - 1;
      EffectsLength(es[..n]);
      EffectsLength(fs[..n]);
      SplitAt(EncodeEffects(es[..n]), EncodeEffect(n, es[n]), EncodeEffects(fs[..n]), EncodeEffect(n, fs[n]));
      EffectsInjective(es[..n], fs[..n]);
      EffectInjective(n, es[n], fs[n]);
      assert es == es[..n] + [es[n]] && fs == fs[..n] + [fs[n]];
    }
  }

  lemma WordFieldReads(n: nat)
    ensures LittleValue(WordField(n)[..4]) == n % 0x1_0000_0000
    ensures forall i :: 4 <= i < 32 ==> WordField(n)[i] == 0
  {
    hide LittleEndian, LittleValue;
    var w: Word32 := n % 0x1_0000_0000;
    WordRange(w);
    LittleEndianDenotes(w, 4);
    assert WordField(n)[..4] == LittleEndian(w, 4);
  }

  /** The layout of one effect: its position, four 32-byte values and the proposal. */
  lemma EffectLayout(index: nat, e: Effect)
    ensures var b := EncodeEffect(index, e);
      && LittleValue(b[..4]) == index % 0x1_0000_0000 && b[32..64] == e.rVpk && b[64..96] == e.vanNullifier
      && b[96..128] == e.authorityNote && b[128..160] == e.voteCommitment && LittleValue(b[160..164]) == e.proposalId
  {
    hide WordField, LittleValue;
    var b := EncodeEffect(index, e);
    WordFieldReads(index);
    WordFieldReads(e.proposalId);
    assert b[..4] == WordField(index)[..4] && b[160..164] == WordField(e.proposalId)[..4];
  }

  lemma {:induction false} EffectBlock(es: seq<Effect>, i: nat)
    requires i < |es|
    ensures |EncodeEffects(es)| == 192 * |es|
    ensures EncodeEffects(es)[192 * i..192 * i + 192] == EncodeEffect(i, es[i])
  {
    hide EncodeEffect;
    EffectsLength(es);
    var n := |es| - 1;
    EffectsLength(es[..n]);
    if i < n {
      EffectBlock(es[..n], i);
      assert EncodeEffects(es)[192 * i..192 * i + 192] == EncodeEffects(es[..n])[192 * i..192 * i + 192];
    }
  }

  /** The layout of the signed bytes: domain, round, commitment, the number of effects, and each effect's
      block in order. */
  lemma CanonicalLayout(domain: Bytes, r: Bytes32, v: Bytes32, es: seq<Effect>)
    ensures var a, n := Canonical(domain, r, v, es), |domain|;
      && |a| == n + 96 + 192 * |es|
      && a[..n] == domain && a[n..n + 32] == r && a[n + 32..n + 64] == v
      && LittleValue(a[n + 64..n + 68]) == |es| % 0x1_0000_0000
      && forall i :: 0 <= i < |es| ==> a[n + 96 + 192 * i..n + 96 + 192 * i + 192] == EncodeEffect(i, es[i])
  {
    hide WordField, EncodeEffect, EncodeEffects, LittleValue;
    var a, n, tail := Canonical(domain, r, v, es), |domain|, EncodeEffects(es);
    EffectsLength(es);
    WordFieldReads(|es|);
    assert a[n + 64..n + 68] == WordField(|es|)[..4];
    assert a[n + 96..] == tail;
    forall i | 0 <= i < |es|
      ensures a[n + 96 + 192 * i..n + 96 + 192 * i + 192] == EncodeEffect(i, es[i])
    {
      EffectBlock(es, i);
      assert a[n + 96 + 192 * i..n + 96 + 192 * i + 192] == tail[192 * i..192 * i + 192];
    }
  }

  /** Different rounds, delegations or ordered effect lists of any length: different signed bytes. */
  lemma CanonicalInjective(domain: Bytes, r: Bytes32, v: Bytes32, es: seq<Effect>, r': Bytes32, v': Bytes32,
                           fs: seq<Effect>)
    requires Canonical(domain, r, v, es) == Canonical(domain, r', v', fs)
    ensures r == r' && v == v' && es == fs
  {
    var a, b, n := Canonical(domain, r, v, es), Canonical(domain, r', v', fs), |domain|;
    assert a[n..n + 32] == r && b[n..n + 32] == r';
    assert a[n + 32..n + 64] == v && b[n + 32..n + 64] == v';
    assert a[n + 96..] == EncodeEffects(es) && b[n + 96..] == EncodeEffects(fs);
    EffectsInjective(es, fs);
  }
}
