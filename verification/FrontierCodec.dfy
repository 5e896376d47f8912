/** The wire format of a frontier and its parser (circuits/src/nc_root.rs). */
module FrontierCodec {
  import opened Field
  import opened ByteStrings
  import opened Merkle

  /** The 32-byte encoding of a node; `dec` rejects non-canonical encodings. */
  datatype NodeCodec<!H> = NodeCodec(enc: H -> Bytes, dec: Bytes -> Option<H>)

  ghost predicate Canonical<H(!new)>(c: NodeCodec<H>) {
    && (forall x: H :: |c.enc(x)| == 32 && c.dec(c.enc(x)) == Some(x))
    && forall b: Bytes, x: H :: c.dec(b) == Some(x) ==> b == c.enc(x)
  }

  function EncodeNode<H>(c: NodeCodec<H>, n: Option<H>): Bytes {
    match n
    case None => [0]
    case Some(x) => [1] + c.enc(x)
  }

  function EncodeNodes<H>(c: NodeCodec<H>, ns: seq<Option<H>>): Bytes {
    if ns == [] then [] else EncodeNode(c, ns[0]) + EncodeNodes(c, ns[1..])
  }

  function Serialize<H>(c: NodeCodec<H>, t: CommitmentTree<H>): Bytes
    requires |t.parents| < 256
  {
    EncodeNode(c, t.left) + (EncodeNode(c, t.right) + ([|t.parents|] + EncodeNodes(c, t.parents)))
  }

  /** One node and the rest of the data. */
  function ReadNode<H>(c: NodeCodec<H>, data: Bytes): Result<(Option<H>, Bytes)> {
    if data == [] then Err
    else if data[0] == 0 then Ok((None, data[1..]))
    else if data[0] != 1 || |data| < 33 then Err
    else match c.dec(data[1..33])
      case None => Err
      case Some(x) => Ok((Some(x), data[33..]))
  }

  function ReadNodes<H>(c: NodeCodec<H>, data: Bytes, n: nat): Result<(seq<Option<H>>, Bytes)> {
    if n == 0 then Ok(([], data))
    else match ReadNode(c, data)
      case Err => Err
      case Ok((x, rest)) =>
        match ReadNodes(c, rest, n - 1)
        case Err => Err
        case Ok((xs, rest')) => Ok(([x] + xs, rest'))
  }

  function Parse<H>(c: NodeCodec<H>, data: Bytes): Result<CommitmentTree<H>> {
    match ReadNode(c, data)
    case Err => Err
    case Ok((left, d1)) =>
      match ReadNode(c, d1)
      case Err => Err
      case Ok((right, d2)) =>
        if d2 == [] || d2[0] >= DEPTH then Err
        else match ReadNodes(c, d2[1..], d2[0])
          case Err => Err
          case Ok((parents, _)) => Ok(CommitmentTree(left, right, parents))
  }

  /** A result of ReadNodes behind the nodes already read. */
  ghost function Behind<H>(xs: seq<Option<H>>, r: Result<(seq<Option<H>>, Bytes)>): Result<(seq<Option<H>>, Bytes)> {
    match r
    case Err => Err
    case Ok((ys, rest)) => Ok((xs + ys, rest))
  }

  lemma BehindNothing<H>(r: Result<(seq<Option<H>>, Bytes)>)
    ensures Behind([], r) == r
  {
    if r.Ok? {
      assert [] + r.value.0 == r.value.0;
    }
  }

  lemma ReadNone<H>(c: NodeCodec<H>, xs: seq<Option<H>>, data: Bytes)
    ensures Behind(xs, ReadNodes(c, data, 0)) == Ok((xs, data))
  {
    assert xs + [] == xs;
  }

  lemma ReadAnother<H>(c: NodeCodec<H>, xs: seq<Option<H>>, data: Bytes, n: nat)
    requires n > 0
    ensures Behind(xs, ReadNodes(c, data, n)) ==
      match ReadNode(c, data)
      case Err => Err
      case Ok((x, rest)) => Behind(xs + [x], ReadNodes(c, rest, n - 1))
  {
    if ReadNode(c, data).Ok? {
      var (x, rest) := ReadNode(c, data).value;
      var later := ReadNodes(c, rest, n - 1);
      assert later.Ok? ==> xs + ([x] + later.value.0) == (xs + [x]) + later.value.0;
    }
  }

  /** The parser with its moving cursor. */
  method ParseCommitmentTree<H>(c: NodeCodec<H>, bytes: Bytes) returns (r: Result<CommitmentTree<H>>)
    ensures r == Parse(c, bytes)
  {
    var data := bytes;
    var left := ReadNode(c, data);
    if left.Err? {
      return Err;
    }
    data := left.value.1;
    var right := ReadNode(c, data);
    if right.Err? {
      return Err;
    }
    data := right.value.1;
    if |data| == 0 {
      return Err;
    }
    var count := data[0];
    data := data[1..];
    if count >= DEPTH {
      return Err;
    }
    var parents: seq<Option<H>> := [];
    ghost var start := data;
    BehindNothing(ReadNodes(c, start, count));
    hide ReadNode, ReadNodes;
    for i := 0 to count
      invariant ReadNodes(c, start, count) == Behind(parents, ReadNodes(c, data, count - i))
    {
      ReadAnother(c, parents, data, count - i);
      var node := ReadNode(c, data);
      if node.Err? {
        return Err;
      }
      parents := parents + [node.value.0];
      data := node.value.1;
    }
    ReadNone(c, parents, data);
    return Ok(CommitmentTree(left.value.0, right.value.0, parents));
  }

  lemma ReadEncoded<H(!new)>(c: NodeCodec<H>, n: Option<H>, rest: Bytes)
    requires Canonical(c)
    ensures ReadNode(c, EncodeNode(c, n) + rest) == Ok((n, rest))
  {
    var data := EncodeNode(c, n) + rest;
    match n
    case None =>
      assert data[1..] == rest;
    case Some(x) =>
      assert data[1..33] == c.enc(x) && data[33..] == rest;
  }

  lemma {:induction false} ReadEncodedNodes<H(!new)>(c: NodeCodec<H>, ns: seq<Option<H>>, rest: Bytes)
    requires Canonical(c)
    ensures ReadNodes(c, EncodeNodes(c, ns) + rest, |ns|) == Ok((ns, rest))
  {
    if ns == [] {
      assert EncodeNodes(c, ns) + rest == rest;
    } else {
      assert EncodeNodes(c, ns) + rest == EncodeNode(c, ns[0]) + (EncodeNodes(c, ns[1..]) + rest);
      ReadEncoded(c, ns[0], EncodeNodes(c, ns[1..]) + rest);
      ReadEncodedNodes(c, ns[1..], rest);
      assert [ns[0]] + ns[1..] == ns;
    }
  }

  /** Parsing a serialized tree followed by anything gives the tree back, exactly when it has fewer
      parents than the depth. */
  lemma ParseSerialized<H(!new)>(c: NodeCodec<H>, t: CommitmentTree<H>, suffix: Bytes)
    requires Canonical(c) && |t.parents| < 256
    ensures Parse(c, Serialize(c, t) + suffix) == if |t.parents| < DEPTH then Ok(t) else Err
  {
    hide EncodeNode, EncodeNodes, ReadNode, ReadNodes;
    var d2 := [|t.parents|] + EncodeNodes(c, t.parents) + suffix;
    var d1 := EncodeNode(c, t.right) + d2;
    assert Serialize(c, t) + suffix == EncodeNode(c, t.left) + d1;
    ReadEncoded(c, t.left, d1);
    ReadEncoded(c, t.right, d2);
    assert d2[1..] == EncodeNodes(c, t.parents) + suffix;
    ReadEncodedNodes(c, t.parents, suffix);
  }

  lemma ReadConsumes<H(!new)>(c: NodeCodec<H>, data: Bytes)
    requires Canonical(c) && ReadNode(c, data).Ok?
    ensures data == EncodeNode(c, ReadNode(c, data).value.0) + ReadNode(c, data).value.1
  {
    if data[0] == 0 {
      assert data == [0] + data[1..];
    } else {
      var x := c.dec(data[1..33]).value;
      assert data == [1] + data[1..33] + data[33..];
    }
  }

  lemma {:induction false} ReadsConsume<H(!new)>(c: NodeCodec<H>, data: Bytes, n: nat)
    requires Canonical(c) && ReadNodes(c, data, n).Ok?
    ensures var (xs, rest) := ReadNodes(c, data, n).value; |xs| == n && data == EncodeNodes(c, xs) + rest
    decreases n
  {
    if n > 0 {
      ReadConsumes(c, data);
      var (x, rest) := ReadNode(c, data).value;
      ReadsConsume(c, rest, n - 1);
      var (xs, rest') := ReadNodes(c, rest, n - 1).value;
      assert ([x] + xs)[1..] == xs;
      assert EncodeNode(c, x) + (EncodeNodes(c, xs) + rest') == (EncodeNode(c, x) + EncodeNodes(c, xs)) + rest';
    }
  }

  /** Nothing but serialized trees parses: accepted data begins with the result's own encoding. */
  lemma ParsedIsSerialized<H(!new)>(c: NodeCodec<H>, data: Bytes) returns (suffix: Bytes)
    requires Canonical(c) && Parse(c, data).Ok?
    ensures |Parse(c, data).value.parents| < DEPTH
    ensures data == Serialize(c, Parse(c, data).value) + suffix
  {
    hide EncodeNode, EncodeNodes, ReadNode, ReadNodes, Canonical;
    ReadConsumes(c, data);
    var (left, d1) := ReadNode(c, data).value;
    ReadConsumes(c, d1);
    var (right, d2) := ReadNode(c, d1).value;
    ReadsConsume(c, d2[1..], d2[0]);
    var (parents, rest) := ReadNodes(c, d2[1..], d2[0]).value;
    suffix := rest;
    SerializedWith(c, CommitmentTree(left, right, parents), d2, suffix);
  }

  lemma SerializedWith<H>(c: NodeCodec<H>, t: CommitmentTree<H>, d2: Bytes, suffix: Bytes)
    requires d2 != [] && |t.parents| < 256 && d2[0] == |t.parents| && d2[1..] == EncodeNodes(c, t.parents) + suffix
    ensures EncodeNode(c, t.left) + (EncodeNode(c, t.right) + d2) == Serialize(c, t) + suffix
  {
    hide EncodeNode, EncodeNodes;
    assert d2 == [d2[0]] + d2[1..];
  }
}
