/** The attribute formats byte by byte, as the decoder sees them (integer_codec.go, mesh_prediction.go):
    which number names which method and in what order the parts follow. */
module AttributeFormats {
  import opened Bits
  import opened Stream
  import opened Rans
  import opened RansBit
  import opened Wrapping
  import opened Prediction
  import opened TexCoords
  import opened IntegerCodec
  import CreaseFlags
  import SymbolStreams
  import NormalAttribute
  import NormalCodec
  import Octahedra

  /** The corrections in a stream of symbols. */
  function CorrectionsIn(symbols: seq<nat>, n: nat): seq<Row>
    requires n > 0
  {
    Unflat(Signed(symbols), n)
  }

  /** Without a method the symbols are the values. */
  lemma PlainRead(t: TexContext, entries: nat, n: nat, r: seq<byte>)
    requires ValidTex(t) && n > 0
    ensures ReadAttribute(t, entries, n, [254] + r) ==
            match ReadSymbolBytes(r, entries * n, n)
            case None => None
            case Some((symbols, rest)) => Some((CorrectionsIn(symbols, n), rest))
  {
    hide ReadSymbolBytes, Signed, Unflat, ValidTex;
    assert ([254] + r)[1..] == r;
  }

  /** 0 is differences, 1 the first parallelogram, 2 the average of all and 4 that of chosen ones, 5 texture
      coordinates; 1 after it is the wrap transform.  Symbols come first, then the method's own data, then
      the bounds. */
  lemma MethodsRead(t: TexContext, entries: nat, n: nat, code: byte, r: seq<byte>)
    requires ValidTex(t) && n > 0 && code != 254
    ensures var symbols := ReadSymbolBytes(r, entries * n, n);
            var o := ReadAttribute(t, entries, n, [code, 1] + r);
            if symbols.None? then o == None
            else
              var (corrections, rest) := (CorrectionsIn(symbols.value.0, n), symbols.value.1);
              Rows(corrections, n) &&
              (code == 0 ==> o == ReadSimple(t.ctx, Difference, corrections, n, rest)) &&
              (code == 1 ==> o == ReadSimple(t.ctx, First, corrections, n, rest)) &&
              (code == 2 ==> o == ReadSimple(t.ctx, Average, corrections, n, rest)) &&
              (code == 4 ==> o == ReadMasked(t.ctx, corrections, n, rest)) &&
              (code == 5 ==> o == ReadTextured(t, corrections, n, rest)) &&
              (code !in {0, 1, 2, 4, 5} ==> o == None)
  {
    hide ReadSymbolBytes, Signed, Unflat, ValidTex, ReadSimple, ReadMasked, ReadTextured;
    var head := [code, 1] + r;
    assert head[2..] == r && head[0] == code && head[1] == 1;
  }

  /** Any other transform is refused. */
  lemma TransformsRead(t: TexContext, entries: nat, n: nat, code: byte, transform: byte, r: seq<byte>)
    requires ValidTex(t) && n > 0 && code != 254 && transform != 1
    ensures ReadAttribute(t, entries, n, [code, transform] + r) == None
  {
    hide ReadSymbolBytes, Signed, Unflat, ValidTex, ReadTail;
  }

  /** The smaller bound comes first. */
  lemma BoundsRead(lo: nat, hi: nat, r: seq<byte>)
    requires lo < WORD && hi < WORD
    ensures ReadBounds(LeBytes(lo, 4) + (LeBytes(hi, 4) + r)) ==
            var min, max := if lo < 0x8000_0000 then lo as int else lo - WORD, if hi < 0x8000_0000 then hi as int else hi - WORD;
            if min <= max && max - min < 0x7fff_ffff then Some((Bounds(min, max), r)) else None
  {
    hide LeBytes, ReadUint32;
    Uint32RoundTrip(lo, LeBytes(hi, 4) + r);
    Uint32RoundTrip(hi, r);
  }

  /** A zero is followed by a width and numbers of that many bytes, anything else by the entropy coder. */
  lemma SymbolsRead(flag: byte, r: seq<byte>, count: nat, n: nat)
    requires n > 0
    ensures flag > 0 ==> ReadSymbolBytes([flag] + r, count, n) == SymbolStreams.ReadSymbols(r, count, n)
    ensures flag == 0 && r == [] ==> ReadSymbolBytes([flag] + r, count, n) == None
    ensures flag == 0 && r != [] ==>
              ReadSymbolBytes([flag] + r, count, n) == (if r[0] in {1, 2, 3, 4} then ReadFixed(r[1..], count, r[0]) else None)
  {
    hide SymbolStreams.ReadSymbols, ReadFixed;
    assert ([flag] + r)[1..] == r;
  }

  /** Numbers of one width follow one another. */
  lemma FixedRead(v: nat, width: nat, count: nat, r: seq<byte>)
    requires v < Pow256(width)
    ensures ReadFixed(LeBytes(v, width) + r, count + 1, width) ==
            match ReadFixed(r, count, width)
            case None => None
            case Some((more, rest)) => Some(([v] + more, rest))
  {
    hide LeBytes, LeValue;
    LeRoundTrip(v, width);
    var b := LeBytes(v, width) + r;
    assert b[..width] == LeBytes(v, width) && b[width..] == r;
  }

  /** Each context's flags: their number, and a binary stream unless there are none. */
  lemma FlagsRead(flags: seq<bool>, p0: nat, contexts: nat, r: seq<byte>)
    requires ZeroProb(p0) && CreaseFlags.CountFits(flags)
    ensures CreaseFlags.ReadFlags([0] + r, contexts + 1) == CreaseFlags.WithContext([], CreaseFlags.ReadFlags(r, contexts))
    ensures flags != [] ==>
              CreaseFlags.ReadFlags(VarBytes(|flags|) + (BitStream(p0, flags) + r), contexts + 1) == CreaseFlags.WithContext(flags, CreaseFlags.ReadFlags(r, contexts))
  {
    hide BitStream, OpenBits, VarBytes, DecodeBits, ReadVarUint32;
    NoFlagsRead(r);
    if flags != [] {
      CreaseFlags.ContextRoundTrip(flags, p0, r);
      assert CreaseFlags.ContextBytes(flags, p0) + r == VarBytes(|flags|) + (BitStream(p0, flags) + r);
    }
  }

  lemma NoFlagsRead(r: seq<byte>)
    ensures CreaseFlags.ReadContext([0] + r) == Some(([], r))
  {
    assert ([0] + r)[1..] == r;
    assert ReadVar([0] + r, 5) == Some((0, r));
  }

  /** Normals: 3 is their transform, with 0 for differences and 6 for prediction from the geometry, whose
      flips follow the transform's data. */
  lemma NormalsRead(vectors: seq<Octahedra.Vector>, code: byte, transform: byte, r: seq<byte>)
    requires code != 254
    ensures var symbols, o := ReadSymbolBytes(r, 2 * |vectors|, 2), NormalAttribute.ReadNormals(vectors, |vectors|, [code, transform] + r);
            if transform != 3 || symbols.None? then o == NormalAttribute.Failed
            else
              var (corrections, rest) := (NormalAttribute.Paired(NormalAttribute.AsInt32(symbols.value.0)), symbols.value.1);
              var base := NormalAttribute.ReadTransform(rest);
              if base.None? then o == NormalAttribute.Failed
              else
                var (c, after) := base.value;
                (code == 0 ==> o == NormalAttribute.Normals(NormalCodec.Undone32(c, corrections), after)) &&
                (code == 6 && |corrections| == |vectors| ==>
                   match OpenBits(after)
                   case None => o == NormalAttribute.Failed
                   case Some((p0, s, end)) =>
                     o == NormalAttribute.Normals(NormalAttribute.FromGeometry(c, vectors, DecodeBits(s, p0, |vectors|).0, corrections), end)) &&
                (code !in {0, 6} ==> o == NormalAttribute.Failed)
  {
    hide ReadSymbolBytes, NormalAttribute.ReadTransform, OpenBits, DecodeBits, NormalCodec.Undone32, NormalAttribute.FromGeometry, NormalAttribute.Paired, NormalAttribute.AsInt32;
    var head := [code, transform] + r;
    assert head[2..] == r && head[0] == code && head[1] == transform;
  }
}
