/** The kd-tree format byte by byte, as the decoder sees it (internal/codec/kdtree/dynamic.go,
    internal/entropy/folded_bit.go). */
module KdFormats {
  import opened Bits
  import opened Stream
  import opened KdStreams
  import opened KdTree
  import opened KdCodec
  import FoldedBit
  import DirectBit
  import RansBit

  /** The bit length comes first, then the number of points; more than 32 bits are refused, and without
      points nothing follows.  Level 6 and only level 6 selects axes. */
  lemma HeaderRead(dim: nat, level: nat, bl: nat, n: nat, r: seq<byte>)
    requires 1 <= dim < WORD && level <= 6 && bl < WORD && n < WORD
    ensures var o := DecodeAll(dim, level, LeBytes(bl, 4) + (LeBytes(n, 4) + r));
            if bl > 32 then o == None
            else if n == 0 then o == Some(([], r))
            else if OpenAll(level, r).None? then o == None
            else
              var (src, single, rest) := OpenAll(level, r).value;
              o == DecodeBody(Config(dim, bl, level == 6), n, src, single, rest)
  {
    hide LeBytes, ReadUint32, OpenAll, DecodeBody;
    Uint32RoundTrip(bl, LeBytes(n, 4) + r);
    Uint32RoundTrip(n, r);
  }

  /** The root is the whole range, and the first axis of a cycle the second one. */
  lemma RootRead(c: Config, n: nat, src: Sources, single: bool, rest: seq<byte>)
    requires ValidConfig(c) && ValidSources(src)
    ensures var zero := seq(c.dim, _ => 0);
            DecodeBody(c, n, src, single, rest) ==
              match DecTree(c, n, zero, zero, 0, src)
              case None => None
              case Some((rows, after)) => if EndsCleanly(after.numbers, single) then Some((rows, rest)) else None
  {
    hide DecTree, EndsCleanly;
    assert Zero(c) == seq(c.dim, _ => 0);
  }

  /** A direct stream of whole words. */
  function Words(data: seq<byte>): seq<byte>
  {
    LeBytes(|data|, 4) + data
  }

  lemma WordsRead(data: seq<byte>, r: seq<byte>)
    requires 0 < |data| < WORD && |data| % 4 == 0
    ensures DirectBit.OpenDirect(Words(data) + r) == Some((DirectBit.DataBits(data), r))
  {
    hide LeBytes, ReadUint32, DirectBit.DataBits;
    Uint32RoundTrip(|data|, data + r);
    TakeConcat(data, r);
    assert Words(data) + r == LeBytes(|data|, 4) + (data + r);
  }

  /** Numbers come first, then remaining bits, axes and half bits; below level 2 all of them are direct. */
  lemma StreamsRead(level: nat, a: seq<byte>, b: seq<byte>, c: seq<byte>, d: seq<byte>, r: seq<byte>)
    requires level < 2 && 0 < |a| < WORD && 0 < |b| < WORD && 0 < |c| < WORD && 0 < |d| < WORD
    requires |a| % 4 == 0 && |b| % 4 == 0 && |c| % 4 == 0 && |d| % 4 == 0
    ensures OpenAll(level, Words(a) + (Words(b) + (Words(c) + (Words(d) + r)))) ==
            Some((Sources(Direct(DirectBit.DataBits(a)), Direct(DirectBit.DataBits(b)), Direct(DirectBit.DataBits(c)), Direct(DirectBit.DataBits(d))), true, r))
  {
    hide Words, DirectBit.OpenDirect, DirectBit.DataBits;
    WordsRead(d, r);
    WordsRead(c, Words(d) + r);
    WordsRead(b, Words(c) + (Words(d) + r));
    WordsRead(a, Words(b) + (Words(c) + (Words(d) + r)));
  }

  /** On levels 2 and 3 the numbers are in one binary stream, from level 4 on in 32 columns and a stream
      for single bits, which holds none. */
  lemma NumbersRead(level: nat, r: seq<byte>)
    ensures level in {2, 3} ==>
              match RansBit.OpenBits(r)
              case None => OpenNumbers(level, r) == None
              case Some((p0, s, rest)) => OpenNumbers(level, r) == Some((Coded(p0, s), true, rest))
    ensures level >= 4 && OpenNumbers(level, r).Some? ==>
              FoldedBit.OpenColumns(r, 32).Some? &&
              var (columns, rest) := FoldedBit.OpenColumns(r, 32).value;
              OpenNumbers(level, r).value.0 == Folded(columns) && RansBit.OpenBits(rest).Some? &&
              OpenNumbers(level, r).value.2 == RansBit.OpenBits(rest).value.2
  {
    hide RansBit.OpenBits, FoldedBit.OpenColumns;
  }

  /** The columns' streams follow one another in order. */
  lemma ColumnsRead(r: seq<byte>, n: nat)
    ensures FoldedBit.OpenColumns(r, n + 1).Some? ==>
              FoldedBit.OpenColumns(r, n).Some? &&
              var (columns, rest) := FoldedBit.OpenColumns(r, n).value;
              RansBit.OpenBits(rest).Some? &&
              var (p0, s, after) := RansBit.OpenBits(rest).value;
              FoldedBit.OpenColumns(r, n + 1) == Some((columns + [Column(p0, s)], after))
  {
    hide RansBit.OpenBits;
  }

  /** The i-th bit of a number comes from the i-th column. */
  lemma {:induction false} FoldedRead(columns: seq<Column>, n: nat, i: nat)
    requires i < n <= |columns| && forall k :: 0 <= k < |columns| ==> columns[k].p0 <= 255
    ensures FoldRead(columns, n).0[i] == RansBit.DecodeBitStep(columns[i].s, columns[i].p0).0
    decreases n
  {
    hide RansBit.DecodeBitStep;
    if i < n - 1 {
      FoldedRead(columns, n - 1, i);
    }
  }

  /** Numbers are read from their highest bit on. */
  lemma {:induction false} HighBitFirst(bits: seq<bool>, bit: bool)
    ensures MsbValue([bit] + bits) == (if bit then Pow2(|bits|) else 0) + MsbValue(bits)
    decreases |bits|
  {
    if bits != [] {
      var last := |bits| - 1;
      HighBitFirst(bits[..last], bit);
      assert ([bit] + bits)[..last + 1] == [bit] + bits[..last];
    } else {
      assert MsbValue([]) == 0 && [bit][..0] == [] && [bit] + [] == [bit];
    }
  }
}
