/** The sequential integer attribute format (integer_codec.go): a prediction method, the corrections
    as symbols, then the method's side data and the bounds of the wrap transform. */
module IntegerCodec {
  import opened Bits
  import opened Stream
  import opened Rans
  import opened RansBit
  import opened Wrapping
  import opened Prediction
  import opened TexCoords
  import CreaseFlags
  import SymbolStreams

  // ---- signed numbers as symbols -----------------------------------------------------------------

  /** convertSignedIntToSymbol: the sign moves to the lowest bit. */
  function SymbolOf(v: int): nat
    requires Int32(v)
  {
    if v >= 0 then U32(2 * U32(v)) else U32(2 * U32(-(v + 1))) + 1
  }

  function SignedOf(symbol: nat): int
  {
    if symbol % 2 == 0 then S32(symbol / 2) else S32(-S32(symbol / 2) - 1)
  }

  /** The two conversions are inverse bijections of the 32-bit ranges, and small magnitudes give
      small symbols. */
  lemma SymbolsAreNumbers(v: int, symbol: nat)
    requires Int32(v) && symbol < WORD
    ensures SymbolOf(v) < WORD && SignedOf(SymbolOf(v)) == v
    ensures Int32(SignedOf(symbol)) && SymbolOf(SignedOf(symbol)) == symbol
    ensures SymbolOf(v) == if v >= 0 then 2 * v else -2 * v - 1
  {
    hide SymbolOf, SignedOf;
    SymbolMagnitude(v);
    SignedMagnitude(SymbolOf(v));
    SignedMagnitude(symbol);
    SymbolMagnitude(SignedOf(symbol));
  }

  lemma SymbolMagnitude(v: int)
    requires Int32(v)
    ensures SymbolOf(v) == if v >= 0 then 2 * v else -2 * v - 1
  {
  }

  lemma SignedMagnitude(symbol: nat)
    requires symbol < WORD
    ensures SignedOf(symbol) == if symbol % 2 == 0 then symbol / 2 else -(symbol / 2) - 1
    ensures Int32(SignedOf(symbol))
  {
  }

  // ---- rows and symbols ------------------------------------------------------------------------------

  function Flat(rows: seq<Row>): seq<int>
  {
    if rows == [] then [] else rows[0] + Flat(rows[1..])
  }

  function Unflat(flat: seq<int>, n: nat): (r: seq<Row>)
    requires n > 0
    ensures Rows(r, n)
  {
    if |flat| < n then [] else [flat[..n]] + Unflat(flat[n..], n)
  }

  lemma {:induction false} FlatRoundTrip(rows: seq<Row>, n: nat)
    requires n > 0 && Rows(rows, n)
    ensures Unflat(Flat(rows), n) == rows && |Flat(rows)| == |rows| * n
    decreases |rows|
  {
    if rows != [] {
      FlatRoundTrip(rows[1..], n);
      var flat := Flat(rows);
      assert flat[..n] == rows[0] && flat[n..] == Flat(rows[1..]);
      assert rows == [rows[0]] + rows[1..];
    }
  }

  predicate AllInt32(s: seq<int>)
  {
    forall i :: 0 <= i < |s| ==> Int32(s[i])
  }

  function SymbolsOf(s: seq<int>): (r: seq<nat>)
    requires AllInt32(s)
    ensures |r| == |s|
  {
    seq(|s|, i requires 0 <= i < |s| => SymbolOf(s[i]))
  }

  function Signed(symbols: seq<nat>): (r: seq<int>)
    ensures |r| == |symbols|
  {
    seq(|symbols|, i requires 0 <= i < |symbols| => SignedOf(symbols[i]))
  }

  lemma SignedSymbols(s: seq<int>)
    requires AllInt32(s)
    ensures Signed(SymbolsOf(s)) == s && SymbolStreams.Words(SymbolsOf(s))
  {
    hide SymbolOf, SignedOf;
    forall i | 0 <= i < |s|
      ensures SignedOf(SymbolOf(s[i])) == s[i] && SymbolOf(s[i]) < WORD
    {
      SymbolsAreNumbers(s[i], 0);
    }
  }

  // ---- raw symbols -------------------------------------------------------------------------------------

  function OrAll(symbols: seq<nat>): nat
  {
    if symbols == [] then 0 else Or(OrAll(symbols[..|symbols| - 1]), symbols[|symbols| - 1])
  }

  /** Bytes for each symbol, from the bits that any symbol uses. */
  function RawWidth(symbols: seq<nat>): nat
  {
    if OrAll(symbols) == 0 then 1 else (BitLength(OrAll(symbols)) + 7) / 8
  }

  function FixedWidth(symbols: seq<nat>, width: nat): seq<byte>
  {
    if symbols == [] then [] else LeBytes(symbols[0], width) + FixedWidth(symbols[1..], width)
  }

  function ReadFixed(r: seq<byte>, count: nat, width: nat): Option<(seq<nat>, seq<byte>)>
    decreases count
  {
    if count == 0 then Some(([], r))
    else if |r| < width then None
    else
      match ReadFixed(r[width..], count - 1, width)
      case None => None
      case Some((more, rest)) => Some(([LeValue(r[..width])] + more, rest))
  }

  function ReadRawSymbols(r: seq<byte>, count: nat): Option<(seq<nat>, seq<byte>)>
  {
    if r == [] || r[0] == 0 || r[0] > 4 then None else ReadFixed(r[1..], count, r[0])
  }

  lemma {:induction false} OrAbove(a: nat, b: nat)
    ensures Or(a, b) >= a && Or(a, b) >= b
    decreases a + b
  {
    if a + b > 0 {
      OrAbove(a / 2, b / 2);
    }
  }

  lemma {:induction false} OrAllAbove(symbols: seq<nat>, i: nat)
    requires i < |symbols|
    ensures symbols[i] <= OrAll(symbols)
    decreases |symbols|
  {
    var m := |symbols| - 1;
    OrAbove(OrAll(symbols[..m]), symbols[m]);
    if i < m {
      OrAllAbove(symbols[..m], i);
    }
  }

  lemma {:induction false} OrAllFits(symbols: seq<nat>)
    requires SymbolStreams.Words(symbols)
    ensures OrAll(symbols) < Pow2(32)
    decreases |symbols|
  {
    hide Pow2;
    Pow2Of32();
    if symbols != [] {
      var m := |symbols| - 1;
      OrAllFits(symbols[..m]);
      MsbOr(OrAll(symbols[..m]), symbols[m], 32);
    }
  }

  lemma {:induction false} Pow256Is(n: nat)
    ensures Pow256(n) == Pow2(8 * n)
  {
    hide Pow2;
    if n == 0 {
      Pow2Zero();
    } else {
      Pow256Is(n - 1);
      Pow2Add(8, 8 * (n - 1));
      Pow2Of32();
    }
  }

  lemma Pow2Zero()
    ensures Pow2(0) == 1
  {
  }

  lemma WidthFits(symbols: seq<nat>)
    requires SymbolStreams.Words(symbols)
    ensures 1 <= RawWidth(symbols) <= 4
    ensures forall i :: 0 <= i < |symbols| ==> symbols[i] < Pow256(RawWidth(symbols))
  {
    hide OrAll, Pow2, Pow256, BitLength;
    var m, w := OrAll(symbols), RawWidth(symbols);
    OrAllFits(symbols);
    BitLengthBound(m, 32);
    BitLengthFits(m);
    Pow256Is(w);
    if m == 0 {
      Pow2Zero();
      Pow2Mono(0, 8 * w);
    } else {
      Pow2Mono(BitLength(m), 8 * w);
    }
    forall i | 0 <= i < |symbols|
      ensures symbols[i] < Pow256(w)
    {
      OrAllAbove(symbols, i);
    }
  }

  lemma {:induction false} FixedRoundTrip(symbols: seq<nat>, width: nat, suffix: seq<byte>)
    requires forall i :: 0 <= i < |symbols| ==> symbols[i] < Pow256(width)
    ensures ReadFixed(FixedWidth(symbols, width) + suffix, |symbols|, width) == Some((symbols, suffix))
    decreases |symbols|
  {
    hide Pow256, LeBytes, LeValue;
    if symbols == [] {
      assert FixedWidth(symbols, width) + suffix == suffix;
    } else {
      var r := FixedWidth(symbols, width) + suffix;
      assert r[..width] == LeBytes(symbols[0], width) && r[width..] == FixedWidth(symbols[1..], width) + suffix;
      LeRoundTrip(symbols[0], width);
      FixedRoundTrip(symbols[1..], width, suffix);
      assert [symbols[0]] + symbols[1..] == symbols;
    }
  }

  function RawSymbolBytes(symbols: seq<nat>): seq<byte>
    requires 1 <= RawWidth(symbols) <= 4
  {
    [RawWidth(symbols)] + FixedWidth(symbols, RawWidth(symbols))
  }

  /** Uncompressed symbols come back. */
  lemma RawSymbolsRoundTrip(symbols: seq<nat>, suffix: seq<byte>)
    requires SymbolStreams.Words(symbols) && 1 <= RawWidth(symbols) <= 4
    ensures ReadRawSymbols(RawSymbolBytes(symbols) + suffix, |symbols|) == Some((symbols, suffix))
  {
    hide RawWidth, FixedWidth, ReadFixed;
    WidthFits(symbols);
    FixedRoundTrip(symbols, RawWidth(symbols), suffix);
    assert (RawSymbolBytes(symbols) + suffix)[1..] == FixedWidth(symbols, RawWidth(symbols)) + suffix;
  }

  // ---- symbols of either form -----------------------------------------------------------------------------

  /** A flag, then the entropy coder's bytes or raw ones. */
  ghost predicate IsSymbolBytes(symbols: seq<nat>, n: nat, out: seq<byte>)
    requires n > 0
  {
    out != [] &&
    ((out[0] == 1 && exists p, bits: byte :: SymbolStreams.IsEncoding(symbols, n, p, bits, out[1..])) ||
     (out[0] == 0 && 1 <= RawWidth(symbols) <= 4 && out[1..] == RawSymbolBytes(symbols)))
  }

  function ReadSymbolBytes(r: seq<byte>, count: nat, n: nat): Option<(seq<nat>, seq<byte>)>
    requires n > 0
  {
    if r == [] then None
    else if r[0] > 0 then SymbolStreams.ReadSymbols(r[1..], count, n)
    else ReadRawSymbols(r[1..], count)
  }

  lemma SymbolBytesRoundTrip(symbols: seq<nat>, n: nat, out: seq<byte>, suffix: seq<byte>)
    requires n > 0 && |symbols| % n == 0 && SymbolStreams.Words(symbols) && IsSymbolBytes(symbols, n, out)
    ensures ReadSymbolBytes(out + suffix, |symbols|, n) == Some((symbols, suffix))
  {
    hide SymbolStreams.IsEncoding, SymbolStreams.ReadSymbols, ReadRawSymbols, RawSymbolBytes, RawWidth;
    assert (out + suffix)[1..] == out[1..] + suffix && (out + suffix)[0] == out[0];
    if out[0] == 1 {
      var p, bits: byte :| SymbolStreams.IsEncoding(symbols, n, p, bits, out[1..]);
      SymbolStreams.SymbolsRoundTrip(symbols, n, p, bits, out[1..], suffix);
    } else {
      RawSymbolsRoundTrip(symbols, suffix);
    }
  }

  // ---- bounds --------------------------------------------------------------------------------------------

  function BoundBytes(b: Bounds): seq<byte>
  {
    LeBytes(U32(b.min), 4) + LeBytes(U32(b.max), 4)
  }

  /** Wrap.Decode: bounds in the wrong order or too far apart are refused. */
  function ReadBounds(r: seq<byte>): (o: Option<(Bounds, seq<byte>)>)
    ensures o.Some? ==> ValidBounds(o.value.0)
  {
    match ReadUint32(r)
    case None => None
    case Some((lo, rest)) =>
      match ReadUint32(rest)
      case None => None
      case Some((hi, after)) =>
        var b := Bounds(S32(lo), S32(hi));
        if b.min > b.max || b.max - b.min >= 0x7fff_ffff then None else Some((b, after))
  }

  lemma SignedWord(x: int)
    requires Int32(x)
    ensures S32(U32(x)) == x
  {
  }

  lemma BoundsRoundTrip(b: Bounds, suffix: seq<byte>)
    requires ValidBounds(b)
    ensures ReadBounds(BoundBytes(b) + suffix) == Some((b, suffix))
  {
    hide LeBytes, ReadUint32, U32, S32;
    var hi := LeBytes(U32(b.max), 4) + suffix;
    assert BoundBytes(b) + suffix == LeBytes(U32(b.min), 4) + hi;
    SignedWord(b.min);
    SignedWord(b.max);
    WordOf(b.min);
    WordOf(b.max);
    Uint32RoundTrip(U32(b.min), hi);
    Uint32RoundTrip(U32(b.max), suffix);
  }

  lemma WordOf(x: int)
    ensures U32(x) < WORD
  {
  }

  // ---- the attribute format ---------------------------------------------------------------------------------

  /** What the encoder decided: no prediction, or bounds and a prediction method with its side data. */
  datatype Decision =
    | Plain
    | Simple(b: Bounds, kind: Kind)
    | Masked(b: Bounds, masks: seq<CreaseFlags.Mask>, p0s: seq<nat>)
    | Textured(b: Bounds, picks: seq<bool>, p0: nat)

  const WRAP: nat := 1
  const NONE: nat := 0xfe

  function KindCode(kind: Kind): nat
  {
    match kind
    case Difference => 0
    case First => 1
    case Average => 2
    case Chosen(_) => 4
  }

  /** The decision fits the values. */
  ghost predicate PlanOk(t: TexContext, plan: Decision, values: seq<Row>, n: nat)
    requires ValidTex(t)
  {
    n > 0 && Rows(values, n) && AllInt32(Flat(values)) &&
    match plan
    case Plain => true
    case Simple(b, kind) => !kind.Chosen? && Bounded(b, values)
    case Masked(b, masks, p0s) => MaskedOk(t.ctx, b, masks, p0s, values)
    case Textured(b, picks, p0) => n == 2 && |picks| == |values| && ZeroProb(p0) && Bounded(b, values) && Sound(t, values)
  }

  ghost predicate MaskedOk(ctx: Context, b: Bounds, masks: seq<CreaseFlags.Mask>, p0s: seq<nat>, values: seq<Row>)
    requires Valid(ctx)
  {
    |masks| == |values| && CreaseFlags.Masks(ctx, masks) && Bounded(b, values) && ProbsOk(p0s)
  }

  predicate ProbsOk(p0s: seq<nat>)
  {
    |p0s| == MAX_FLAPS && forall c :: 0 <= c < |p0s| ==> ZeroProb(p0s[c])
  }

  predicate Bounded(b: Bounds, values: seq<Row>)
  {
    ValidBounds(b) && forall i :: 0 <= i < |values| ==> RowInside(b, values[i])
  }

  /** The rows that are written as symbols. */
  ghost function Residuals(t: TexContext, plan: Decision, values: seq<Row>, n: nat): (r: seq<Row>)
    requires ValidTex(t) && PlanOk(t, plan, values, n)
    ensures |r| == |values| && Rows(r, n)
  {
    hide Flat, Bounded, Sound;
    match plan
    case Plain => values
    case Simple(b, kind) => Corrections(t.ctx, kind, b, values, n)
    case Masked(b, masks, _) => Corrections(t.ctx, Chosen(masks), b, values, n)
    case Textured(b, picks, _) => TexCorrections(t, b, values, picks)
  }

  function Head(plan: Decision): seq<byte>
  {
    match plan
    case Plain => [NONE]
    case Simple(_, kind) => [KindCode(kind), WRAP]
    case Masked(_, _, _) => [4, WRAP]
    case Textured(_, _, _) => [5, WRAP]
  }

  ghost function SideData(t: TexContext, plan: Decision, values: seq<Row>, n: nat): seq<byte>
    requires ValidTex(t) && PlanOk(t, plan, values, n)
  {
    hide Flat, Bounded, Sound;
    match plan
    case Plain => []
    case Simple(b, _) => BoundBytes(b)
    case Masked(b, masks, p0s) => CreaseFlags.FlagBytes(CreaseFlags.FlagsOf(t.ctx, masks), p0s) + BoundBytes(b)
    case Textured(b, picks, p0) => OrientationBytes(Orientations(t, values, picks, 0), p0) + BoundBytes(b)
  }

  ghost predicate IsAttribute(t: TexContext, plan: Decision, values: seq<Row>, n: nat, out: seq<byte>)
    requires ValidTex(t) && PlanOk(t, plan, values, n)
  {
    var flat := Flat(Residuals(t, plan, values, n));
    AllInt32(flat) &&
    exists symbols :: IsSymbolBytes(SymbolsOf(flat), n, symbols) && out == Head(plan) + symbols + SideData(t, plan, values, n)
  }

  // ---- reading an attribute ------------------------------------------------------------------------------------

  ghost function ReadSimple(ctx: Context, kind: Kind, corrections: seq<Row>, n: nat, r: seq<byte>): Option<(seq<Row>, seq<byte>)>
    requires Valid(ctx) && Rows(corrections, n) && !kind.Chosen?
  {
    match ReadBounds(r)
    case None => None
    case Some((b, rest)) => Some((Rebuilt(ctx, kind, b, corrections, n), rest))
  }

  ghost function ReadMasked(ctx: Context, corrections: seq<Row>, n: nat, r: seq<byte>): Option<(seq<Row>, seq<byte>)>
    requires Valid(ctx) && Rows(corrections, n)
  {
    match CreaseFlags.ReadFlags(r, MAX_FLAPS)
    case None => None
    case Some((flags, rest)) =>
      match ReadBounds(rest)
      case None => None
      case Some((b, after)) =>
        match CreaseFlags.Decoded(ctx, b, corrections, n, flags)
        case None => None
        case Some(values) => Some((values, after))
  }

  ghost function ReadTextured(t: TexContext, corrections: seq<Row>, n: nat, r: seq<byte>): Option<(seq<Row>, seq<byte>)>
    requires ValidTex(t) && Rows(corrections, n)
  {
    match ReadOrientations(r)
    case None => None
    case Some((orientations, rest)) =>
      match ReadBounds(rest)
      case None => None
      case Some((b, after)) =>
        if n != 2 then None
        else
          match TexRebuilt(t, b, corrections, orientations)
          case None => None
          case Some((values, left)) => Some((values, after))
  }

  ghost function ReadTail(t: TexContext, code: nat, corrections: seq<Row>, n: nat, r: seq<byte>): Option<(seq<Row>, seq<byte>)>
    requires ValidTex(t) && Rows(corrections, n)
  {
    if code == NONE then Some((corrections, r))
    else if code == 0 then ReadSimple(t.ctx, Difference, corrections, n, r)
    else if code == 1 then ReadSimple(t.ctx, First, corrections, n, r)
    else if code == 2 then ReadSimple(t.ctx, Average, corrections, n, r)
    else if code == 4 then ReadMasked(t.ctx, corrections, n, r)
    else if code == 5 then ReadTextured(t, corrections, n, r)
    else None
  }

  /** decodeSequentialIntegerAttribute for the wrap transform: None is a reported error. */
  ghost function ReadAttribute(t: TexContext, entries: nat, n: nat, r: seq<byte>): Option<(seq<Row>, seq<byte>)>
    requires ValidTex(t) && n > 0
  {
    if r == [] || (r[0] != NONE && (|r| < 2 || r[1] != WRAP)) then None
    else
      var body := if r[0] == NONE then r[1..] else r[2..];
      match ReadSymbolBytes(body, entries * n, n)
      case None => None
      case Some((symbols, rest)) => ReadTail(t, r[0], Unflat(Signed(symbols), n), n, rest)
  }

  /** A difference method without entries: after the bounds, the first row of n corrections is sliced
      off an empty buffer, which only works when a reused buffer has room for it. */
  ghost predicate SlicesEmpty(entries: nat, n: nat, r: seq<byte>)
    requires n > 0
  {
    entries == 0 && |r| >= 2 && r[0] == 0 && r[1] == WRAP && ReadSymbolBytes(r[2..], 0, n).Some? &&
    ReadBounds(ReadSymbolBytes(r[2..], 0, n).value.1).Some?
  }

  /** Such bytes exist. */
  lemma SlicesEmptyExample()
    ensures SlicesEmpty(0, 3, [0, WRAP, 1, 0, 0, 0, 0, 0, 0, 0, 0])
  {
    hide ReadBounds, BoundBytes;
    var r: seq<byte> := [0, WRAP, 1, 0, 0, 0, 0, 0, 0, 0, 0];
    var b := Bounds(0, 0);
    ZeroBounds();
    assert r[2..] == [1] + BoundBytes(b);
    assert r[2..][1..] == BoundBytes(b) && BoundBytes(b) + [] == BoundBytes(b);
    BoundsRoundTrip(b, []);
  }

  lemma ZeroBounds()
    ensures BoundBytes(Bounds(0, 0)) == [0, 0, 0, 0, 0, 0, 0, 0]
  {
  }

  // ---- the round trip ----------------------------------------------------------------------------------------------

  /** Values in bounds that wrap losslessly, and counts that their fields can hold. */
  ghost predicate Lossless(t: TexContext, plan: Decision, values: seq<Row>, n: nat)
    requires ValidTex(t) && PlanOk(t, plan, values, n)
  {
    hide Flat, Bounded, Sound;
    match plan
    case Plain => true
    case Simple(b, _) => Fits(b)
    case Masked(b, masks, _) => Fits(b) && FlagCountsFit(t.ctx, masks)
    case Textured(b, picks, _) => Fits(b) && |Orientations(t, values, picks, 0)| < 0x8000_0000
  }

  ghost predicate FlagCountsFit(ctx: Context, masks: seq<CreaseFlags.Mask>)
    requires Valid(ctx) && CreaseFlags.Masks(ctx, masks)
  {
    forall c :: 0 <= c < MAX_FLAPS ==> CreaseFlags.CountFits(CreaseFlags.FlagsOf(ctx, masks)[c])
  }

  lemma TailRoundTrip(t: TexContext, plan: Decision, values: seq<Row>, n: nat, suffix: seq<byte>)
    requires ValidTex(t) && PlanOk(t, plan, values, n) && Lossless(t, plan, values, n)
    ensures ReadTail(t, Head(plan)[0], Residuals(t, plan, values, n), n, SideData(t, plan, values, n) + suffix) == Some((values, suffix))
  {
    match plan
    case Plain =>
      assert SideData(t, plan, values, n) + suffix == suffix;
    case Simple(b, kind) => SimpleRoundTrip(t, b, kind, values, n, suffix);
    case Masked(b, masks, p0s) => MaskedRoundTrip(t, b, masks, p0s, values, n, suffix);
    case Textured(b, picks, p0) => TexturedRoundTrip(t, b, picks, p0, values, suffix);
  }

  lemma SimpleRoundTrip(t: TexContext, b: Bounds, kind: Kind, values: seq<Row>, n: nat, suffix: seq<byte>)
    requires ValidTex(t) && PlanOk(t, Simple(b, kind), values, n) && Fits(b)
    ensures ReadTail(t, KindCode(kind), Corrections(t.ctx, kind, b, values, n), n, BoundBytes(b) + suffix) == Some((values, suffix))
  {
    hide BoundBytes, ReadBounds, Corrections, Rebuilt, Flat, Fits, Valid;
    BoundsRoundTrip(b, suffix);
    PredictionRoundTrip(t.ctx, kind, b, values, n);
  }

  lemma MaskedRoundTrip(t: TexContext, b: Bounds, masks: seq<CreaseFlags.Mask>, p0s: seq<nat>, values: seq<Row>, n: nat, suffix: seq<byte>)
    requires ValidTex(t) && PlanOk(t, Masked(b, masks, p0s), values, n) && Fits(b) && FlagCountsFit(t.ctx, masks)
    ensures ReadTail(t, 4, Corrections(t.ctx, Chosen(masks), b, values, n), n,
              CreaseFlags.FlagBytes(CreaseFlags.FlagsOf(t.ctx, masks), p0s) + BoundBytes(b) + suffix) == Some((values, suffix))
  {
    hide BoundBytes, ReadBounds, Corrections, Flat, Fits, Valid, CreaseFlags.FlagsOf, CreaseFlags.FlagBytes, CreaseFlags.ReadFlags;
    hide CreaseFlags.Decoded, CreaseFlags.Masks;
    var flags := CreaseFlags.FlagsOf(t.ctx, masks);
    var bytes := CreaseFlags.FlagBytes(flags, p0s);
    assert bytes + BoundBytes(b) + suffix == bytes + (BoundBytes(b) + suffix);
    CreaseFlags.FlagsRoundTrip(flags, p0s, BoundBytes(b) + suffix);
    BoundsRoundTrip(b, suffix);
    CreaseFlags.ConstrainedRoundTrip(t.ctx, masks, b, values, n);
  }

  lemma TexturedRoundTrip(t: TexContext, b: Bounds, picks: seq<bool>, p0: nat, values: seq<Row>, suffix: seq<byte>)
    requires ValidTex(t) && PlanOk(t, Textured(b, picks, p0), values, 2) && Fits(b) && |Orientations(t, values, picks, 0)| < 0x8000_0000
    ensures ReadTail(t, 5, TexCorrections(t, b, values, picks), 2,
              OrientationBytes(Orientations(t, values, picks, 0), p0) + BoundBytes(b) + suffix) == Some((values, suffix))
  {
    hide BoundBytes, ReadBounds, TexCorrections, Flat, Fits, ValidTex, OrientationBytes, ReadOrientations, TexRebuilt, Orientations, Sound;
    var orientations := Orientations(t, values, picks, 0);
    var bytes := OrientationBytes(orientations, p0);
    assert bytes + BoundBytes(b) + suffix == bytes + (BoundBytes(b) + suffix);
    OrientationsRoundTrip(orientations, p0, BoundBytes(b) + suffix);
    BoundsRoundTrip(b, suffix);
    TexRoundTrip(t, b, values, picks);
  }

  /** The attribute format's law: for every prediction method and every choice that the encoder makes
      along the way, decoding its bytes, followed by anything, returns the values and stops there. */
  lemma AttributeRoundTrip(t: TexContext, plan: Decision, values: seq<Row>, n: nat, out: seq<byte>, suffix: seq<byte>)
    requires ValidTex(t) && PlanOk(t, plan, values, n) && Lossless(t, plan, values, n) && IsAttribute(t, plan, values, n, out)
    ensures ReadAttribute(t, |values|, n, out + suffix) == Some((values, suffix))
  {
    hide SideData, ReadTail, Residuals, PlanOk, Lossless, ValidTex, IsSymbolBytes, ReadSymbolBytes, Flat, Unflat, SymbolsOf, Signed;
    PlanWidth(t, plan, values, n);
    var rows := Residuals(t, plan, values, n);
    var flat := Flat(rows);
    var symbols :| IsSymbolBytes(SymbolsOf(flat), n, symbols) && out == Head(plan) + symbols + SideData(t, plan, values, n);
    var rest := SideData(t, plan, values, n) + suffix;
    FlatRoundTrip(rows, n);
    SignedSymbols(flat);
    ProductDivides(|values|, n);
    SymbolBytesRoundTrip(SymbolsOf(flat), n, symbols, rest);
    TailRoundTrip(t, plan, values, n, suffix);
    BodyOf(plan, symbols, SideData(t, plan, values, n), suffix);
  }

  lemma PlanWidth(t: TexContext, plan: Decision, values: seq<Row>, n: nat)
    requires ValidTex(t) && PlanOk(t, plan, values, n)
    ensures n > 0
  {
  }

  lemma ProductDivides(a: nat, n: nat)
    requires n > 0
    ensures a * n % n == 0
  {
    DivModUnique(a * n, n, a, 0);
  }

  lemma BodyOf(plan: Decision, symbols: seq<byte>, tail: seq<byte>, suffix: seq<byte>)
    ensures var r := Head(plan) + symbols + tail + suffix;
            r != [] && r[0] == Head(plan)[0] &&
            (if r[0] == NONE then r[1..] == symbols + (tail + suffix) else |r| >= 2 && r[1] == WRAP && r[2..] == symbols + (tail + suffix))
  {
    var r := Head(plan) + symbols + tail + suffix;
    assert r == Head(plan) + (symbols + (tail + suffix));
  }
}
