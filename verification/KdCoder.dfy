/** Running the kd-tree codec through the coder classes (internal/codec/kdtree/dynamic.go):
    the writes go to the direct, binary or folded coder that the compression level selects. */
module KdCoding {
  import opened Bits
  import opened Stream
  import opened RansBit
  import opened RansBitCoding
  import opened DirectBit
  import opened FoldedBit
  import opened KdStreams
  import opened KdTree
  import opened KdCodec
  import KdEncode
  import KdDecode

  lemma OpsBitsTo(ops: seq<Op>, i: nat)
    requires i < |ops|
    ensures OpsBits(ops[..i + 1]) == OpsBits(ops[..i]) + Msb(ops[i].v, ops[i].n)
  {
    assert ops[..i + 1] == ops[..i] + [ops[i]];
    OpsBitsPush(ops[..i], ops[i]);
  }

  /** All writes through one direct coder; widths are admissible, so it never fails. */
  method EncodeDirect(ops: seq<Op>) returns (out: seq<byte>)
    requires OpsOk(ops)
    ensures IsDirectStream(out, OpsBits(ops))
  {
    hide Msb, IsDirectStream;
    var coder := new DirectBitEncoder();
    assert ops[..0] == [];
    for i := 0 to |ops|
      invariant coder.Valid() && !coder.failed && fresh(coder)
      invariant coder.Contents() == OpsBits(ops[..i])
    {
      coder.EncodeLeastSignificantBits32(ops[i].n, ops[i].v);
      OpsBitsTo(ops, i);
    }
    assert ops[..|ops|] == ops;
    var ok;
    ok, out := coder.EndEncoding();
  }

  /** The half stream is written bit by bit. */
  method EncodeHalves(ops: seq<Op>) returns (out: seq<byte>)
    requires forall i :: 0 <= i < |ops| ==> ops[i].n == 1
    ensures IsDirectStream(out, OpsBits(ops))
  {
    hide Msb, IsDirectStream, Low;
    var coder := new DirectBitEncoder();
    assert ops[..0] == [];
    for i := 0 to |ops|
      invariant coder.Valid() && !coder.failed && fresh(coder)
      invariant coder.Contents() == OpsBits(ops[..i])
    {
      coder.EncodeBit(Low(ops[i].v, 1) == 1);
      MsbOneBit(ops[i].v);
      OpsBitsTo(ops, i);
    }
    assert ops[..|ops|] == ops;
    var ok;
    ok, out := coder.EndEncoding();
  }

  method EncodeCoded(zeroProb: nat, ops: seq<Op>) returns (out: seq<byte>)
    requires OpsOk(ops) && ZeroProb(zeroProb)
    ensures out == BitStream(zeroProb, OpsBits(ops))
  {
    hide Msb, BitStream;
    var coder := new RansBitEncoder();
    assert ops[..0] == [];
    for i := 0 to |ops|
      invariant coder.Valid() && !coder.failed && fresh(coder)
      invariant coder.Contents() == OpsBits(ops[..i])
    {
      coder.EncodeLeastSignificantBits32(ops[i].n, ops[i].v);
      OpsBitsTo(ops, i);
    }
    assert ops[..|ops|] == ops;
    var ok;
    ok, out := coder.EndEncoding(zeroProb);
  }

  method EncodeFolded(probs: seq<nat>, ops: seq<Op>) returns (out: seq<byte>)
    requires OpsOk(ops) && Probs(probs)
    ensures out == FoldedStream(probs, ops)
  {
    hide Msb, FoldedStream;
    var coder := new FoldedBitEncoder();
    assert ops[..0] == [];
    for i := 0 to |ops|
      invariant coder.Valid() && !coder.failed && fresh(coder) && fresh(coder.folded) && fresh(coder.bits)
      invariant coder.Holds(ops[..i])
    {
      coder.EncodeLeastSignificantBits32(ops[i].n, ops[i].v, ops[..i]);
      assert ops[..i + 1] == ops[..i] + [Op(ops[i].n, ops[i].v)];
    }
    assert ops[..|ops|] == ops;
    var ok;
    ok, out := coder.EndEncoding(probs, ops);
  }

  method EncodeNumbers(level: nat, probs: seq<nat>, ops: seq<Op>) returns (out: seq<byte>)
    requires Probs(probs) && OpsOk(ops)
    ensures NumbersStream(level, probs, ops, out)
  {
    hide IsDirectStream, BitStream, FoldedStream, OpsBits, OpsOk;
    if level < 2 {
      out := EncodeDirect(ops);
    } else if level < 4 {
      out := EncodeCoded(probs[0], ops);
    } else {
      out := EncodeFolded(probs, ops);
    }
  }

  /** The encoder: header, then the tree's writes through the four coders in stream order.
      The points are reordered in place; the bytes are an encoding of their first order. */
  method Encode(c: Config, level: nat, probs: seq<nat>, points: array<Row>) returns (out: seq<byte>, ghost parts: Parts)
    requires ValidConfig(c) && Probs(probs) && points.Length < WORD
    requires forall k :: 0 <= k < points.Length ==> |points[k]| == c.dim
    modifies points
    ensures IsEncoding(c, level, probs, old(points[..]), parts, out)
  {
    hide EncTree, IsDirectStream, NumbersStream, OpsBits, LogOk, Zero, LeBytes;
    parts := Parts([], [], [], []);
    out := Header(c, points.Length);
    if points.Length > 0 {
      ghost var first := points[..];
      TreeOk(c, first, Zero(c), Zero(c), 0);
      ZeroRow(c);
      var log := KdEncode.EncodePoints(c, points);
      assert log == EncTree(c, first, Zero(c), Zero(c), 0);
      var body;
      body, parts := EncodeLog(level, probs, log);
      out := out + body;
    }
  }

  lemma ZeroRow(c: Config)
    ensures Zero(c) == seq(c.dim, _ => 0)
  {
  }

  method EncodeLog(level: nat, probs: seq<nat>, log: Log) returns (body: seq<byte>, ghost parts: Parts)
    requires Probs(probs) && LogOk(log)
    ensures IsParts(level, probs, log, parts)
    ensures body == parts.numbers + (parts.remaining + (parts.axis + parts.half))
  {
    hide IsDirectStream, NumbersStream, OpsBits, OpsOk;
    var numbers := EncodeNumbers(level, probs, log.numbers);
    var remaining := EncodeDirect(log.remaining);
    var axis := EncodeDirect(log.axis);
    var half := EncodeHalves(log.half);
    body := numbers + (remaining + (axis + half));
    parts := Parts(numbers, remaining, axis, half);
  }

  /** The decoder: every rejection and every accepted stream is exactly DecodeAll's. */
  method Decode(dim: nat, level: nat, r: seq<byte>) returns (result: Option<(seq<Row>, seq<byte>)>)
    requires 1 <= dim < WORD && level <= 6
    ensures result == DecodeAll(dim, level, r)
  {
    hide DecTree, OpenNumbers, OpenPlain, LeValue, EndsCleanly, OpenAll;
    var header := ReadUint32(r);
    if header.None? || header.value.0 > 32 {
      return None;
    }
    var (bl, r1) := header.value;
    var count := ReadUint32(r1);
    if count.None? {
      return None;
    }
    var (n, r2) := count.value;
    if n == 0 {
      return Some(([], r2));
    }
    var streams := OpenAll(level, r2);
    if streams.None? {
      return None;
    }
    var (src, single, rest) := streams.value;
    var c := Config(dim, bl, level >= 6);
    ZeroRow(c);
    var rows := KdDecode.DecodePoints(c, n, src);
    if rows.None? || !EndsCleanly(rows.value.1.numbers, single) {
      return None;
    }
    result := Some((rows.value.0, rest));
  }

  // ---- the rejected example ---------------------------------------------------------------------------

  /** The encoder writes the example, and the decoder refuses what it wrote. */
  method EncodeRejected(probs: seq<nat>) returns (out: seq<byte>, result: Option<(seq<Row>, seq<byte>)>)
    requires Probs(probs) && Estimated(2, probs, ExampleOps(0))
    ensures ValidPoints(EXAMPLE, ExamplePoints())
    ensures result == None
  {
    hide ExamplePoints, EncTree, IsEncoding, DecodeAll;
    var points := new Row[127](i => if i < 126 then [0] else [1]);
    AsExample(points[..]);
    ghost var parts;
    out, parts := Encode(EXAMPLE, 2, probs, points);
    result := Decode(1, 2, out);
    RejectedExample(probs, parts, out, []);
    assert out + [] == out;
  }

  lemma AsExample(pts: seq<Row>)
    requires |pts| == 127 && forall k :: 0 <= k < 127 ==> pts[k] == if k < 126 then [0] else [1]
    ensures pts == ExamplePoints()
  {
  }
}
