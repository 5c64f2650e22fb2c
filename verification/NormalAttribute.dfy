/** The bytes of a normal attribute (integer_codec.go, mesh_prediction_geometric_normal.go): a
    prediction method, corrections as they are, then the transform and the flips. */
module NormalAttribute {
  import opened Bits
  import opened Stream
  import opened Rans
  import opened RansBit
  import opened Wrapping
  import opened Octahedra
  import opened IntegerCodec
  import NormalTransform
  import NormalCodec
  import SymbolStreams

  /** What the encoder decided: no prediction, differences, or geometry with a predicted vector and
      a flip for each entry. */
  datatype Coding =
    | Unpredicted
    | Differenced
    | Geometric(vectors: seq<Vector>, flips: seq<bool>, p0: nat)

  const CANONICALIZED: nat := 3
  const GEOMETRIC: nat := 6

  function CenterOf(q: nat): (c: int)
    requires 2 <= q <= 30
    ensures Center(c) && 2 * c + 2 == Pow2(q)
  {
    NormalTransform.CenterOfBits(q);
    (Pow2(q) - 2) / 2
  }

  ghost predicate CodingOk(coding: Coding, entries: nat)
  {
    coding.Geometric? ==> |coding.vectors| == |coding.flips| == entries && ZeroProb(coding.p0)
  }

  // ---- points and numbers ---------------------------------------------------------------------------

  function Numbers(points: seq<Point>): (r: seq<int>)
    ensures |r| == 2 * |points|
    ensures forall i :: 0 <= i < |points| ==> r[2 * i] == points[i].s && r[2 * i + 1] == points[i].t
  {
    if points == [] then []
    else
      var last := |points| - 1;
      Numbers(points[..last]) + [points[last].s, points[last].t]
  }

  function Paired(numbers: seq<int>): (r: seq<Point>)
    ensures |r| == |numbers| / 2
  {
    seq(|numbers| / 2, i requires 0 <= i < |numbers| / 2 => Point(numbers[2 * i], numbers[2 * i + 1]))
  }

  lemma PairedNumbers(points: seq<Point>)
    ensures Paired(Numbers(points)) == points
  {
  }

  predicate AllWords(numbers: seq<int>)
  {
    forall i :: 0 <= i < |numbers| ==> 0 <= numbers[i] < 0x8000_0000
  }

  /** uint32 of each correction. */
  function Unsigned(numbers: seq<int>): (r: seq<nat>)
    ensures |r| == |numbers| && forall i :: 0 <= i < |r| ==> r[i] == U32(numbers[i])
  {
    seq(|numbers|, i requires 0 <= i < |numbers| => U32(numbers[i]))
  }

  /** int32 of each symbol. */
  function AsInt32(symbols: seq<nat>): (r: seq<int>)
    ensures |r| == |symbols| && forall i :: 0 <= i < |r| ==> r[i] == S32(symbols[i])
  {
    seq(|symbols|, i requires 0 <= i < |symbols| => S32(symbols[i]))
  }

  lemma WordsStay(numbers: seq<int>)
    requires AllWords(numbers)
    ensures AsInt32(Unsigned(numbers)) == numbers && SymbolStreams.Words(Unsigned(numbers))
  {
  }

  // ---- encoding --------------------------------------------------------------------------------------

  function Residuals(c: int, coding: Coding, values: seq<Point>): (r: seq<Point>)
    requires CodingOk(coding, |values|)
    ensures |r| == |values|
  {
    match coding
    case Unpredicted => values
    case Differenced => NormalCodec.Differences(c, values)
    case Geometric(vectors, flips, p0) =>
      seq(|values|, i requires 0 <= i < |values| => NormalCodec.GeometricCorrection(c, values[i], vectors[i], flips[i]))
  }

  function Head(coding: Coding): seq<byte>
  {
    match coding
    case Unpredicted => [NONE]
    case Differenced => [0, CANONICALIZED]
    case Geometric(_, _, _) => [GEOMETRIC, CANONICALIZED]
  }

  function TransformBytes(c: int): seq<byte>
  {
    LeBytes(U32(2 * c + 1), 4) + LeBytes(U32(c), 4)
  }

  function Tail(c: int, coding: Coding): seq<byte>
    requires coding.Geometric? ==> ZeroProb(coding.p0)
  {
    match coding
    case Unpredicted => []
    case Differenced => TransformBytes(c)
    case Geometric(_, flips, p0) => TransformBytes(c) + BitStream(p0, flips)
  }

  ghost predicate IsNormals(q: nat, coding: Coding, values: seq<Point>, out: seq<byte>)
    requires 2 <= q <= 30 && CodingOk(coding, |values|)
  {
    var c := CenterOf(q);
    var numbers := Numbers(Residuals(c, coding, values));
    AllWords(numbers) &&
    exists symbols :: IsSymbolBytes(Unsigned(numbers), 2, symbols) && out == Head(coding) + symbols + Tail(c, coding)
  }

  // ---- decoding --------------------------------------------------------------------------------------

  /** A reported error, or normals and the bytes after them. */
  datatype Outcome = Failed | Normals(values: seq<Point>, rest: seq<byte>)

  /** The centre from the transmitted modulus; the transmitted centre is ignored. */
  function ReadTransform(r: seq<byte>): (o: Option<(int, seq<byte>)>)
    ensures o.Some? ==> Center(o.value.0)
  {
    match ReadUint32(r)
    case None => None
    case Some((modulus, rest)) =>
      match ReadUint32(rest)
      case None => None
      case Some((_, after)) =>
        var m := S32(modulus);
        if m <= 0 || m % 2 == 0 || BitLength(m) < 2 || BitLength(m) > 30 then None else Some((CenterOf(BitLength(m)), after))
  }

  function ReadDifferences(corrections: seq<Point>, r: seq<byte>): Outcome
  {
    match ReadTransform(r)
    case None => Failed
    case Some((c, rest)) => Normals(NormalCodec.Undone32(c, corrections), rest)
  }

  function ReadGeometric(vectors: seq<Vector>, corrections: seq<Point>, r: seq<byte>): Outcome
    requires |vectors| == |corrections|
  {
    match ReadTransform(r)
    case None => Failed
    case Some((c, rest)) =>
      match OpenBits(rest)
      case None => Failed
      case Some((p0, s, after)) =>
        var flips := DecodeBits(s, p0, |corrections|).0;
        Normals(FromGeometry(c, vectors, flips, corrections), after)
  }

  function FromGeometry(c: int, vectors: seq<Vector>, flips: seq<bool>, corrections: seq<Point>): (r: seq<Point>)
    requires |vectors| == |flips| == |corrections|
    ensures |r| == |corrections|
  {
    seq(|corrections|, i requires 0 <= i < |corrections| => NormalTransform.Original32(c, NormalCodec.Towards(c, vectors[i], flips[i]), corrections[i]))
  }

  /** The decoder's view: without prediction it takes symbols for signed numbers, as for any other
      attribute; with the transform for normals it takes them as they are. */
  function ReadNormals(vectors: seq<Vector>, entries: nat, r: seq<byte>): Outcome
    requires |vectors| == entries
  {
    if r == [] || (r[0] != NONE && |r| < 2) then Failed
    else if r[0] == NONE then
      match ReadSymbolBytes(r[1..], 2 * entries, 2)
      case None => Failed
      case Some((symbols, rest)) => Normals(Paired(Signed(symbols)), rest)
    else if r[1] != CANONICALIZED then Failed
    else
      match ReadSymbolBytes(r[2..], 2 * entries, 2)
      case None => Failed
      case Some((symbols, rest)) =>
        var corrections := Paired(AsInt32(symbols));
        if r[0] == 0 then ReadDifferences(corrections, rest)
        else if r[0] == GEOMETRIC && |corrections| == entries then ReadGeometric(vectors, corrections, rest)
        else Failed
  }

  // ---- the round trip ------------------------------------------------------------------------------------

  lemma TransformRoundTrip(q: nat, suffix: seq<byte>)
    requires 2 <= q <= 30
    ensures ReadTransform(TransformBytes(CenterOf(q)) + suffix) == Some((CenterOf(q), suffix))
  {
    hide LeBytes, ReadUint32, Pow2, BitLength;
    var c := CenterOf(q);
    var rest := LeBytes(U32(c), 4) + suffix;
    assert TransformBytes(c) + suffix == LeBytes(U32(2 * c + 1), 4) + rest;
    Uint32RoundTrip(2 * c + 1, rest);
    Uint32RoundTrip(c, suffix);
    NormalTransform.LengthOfFull(q);
  }

  /** Residuals with prediction are below the modulus. */
  lemma ResidualsInRange(q: nat, coding: Coding, values: seq<Point>)
    requires 2 <= q <= 30 && CodingOk(coding, |values|) && !coding.Unpredicted? && NormalCodec.AllCanonical(CenterOf(q), values)
    ensures NormalCodec.AllInRange(CenterOf(q), Residuals(CenterOf(q), coding, values))
  {
    hide Pow2, NormalCodec.GeometricCorrection, Canonical, NormalCodec.InRange, Correction;
    var c := CenterOf(q);
    match coding
    case Differenced => NormalCodec.DifferencesInRange(c, values);
    case Geometric(vectors, flips, p0) =>
      forall i | 0 <= i < |values|
        ensures NormalCodec.InRange(c, NormalCodec.GeometricCorrection(c, values[i], vectors[i], flips[i]))
      {
        NormalCodec.GeometricInRange(c, values[i], vectors[i], flips[i]);
      }
  }

  lemma GeometryBack(c: int, coding: Coding, values: seq<Point>)
    requires Center(c) && coding.Geometric? && CodingOk(coding, |values|) && NormalCodec.AllCanonical(c, values)
    ensures FromGeometry(c, coding.vectors, coding.flips, Residuals(c, coding, values)) == values
  {
    hide NormalCodec.GeometricCorrection, NormalCodec.Towards, Canonical, Original, NormalTransform.Original32, OnSquare;
    forall i | 0 <= i < |values|
      ensures NormalTransform.Original32(c, NormalCodec.Towards(c, coding.vectors[i], coding.flips[i]),
                NormalCodec.GeometricCorrection(c, values[i], coding.vectors[i], coding.flips[i])) == values[i]
    {
      NormalCodec.GeometricRoundTrip(c, values[i], coding.vectors[i], coding.flips[i]);
      NormalCodec.GeometricInRange(c, values[i], coding.vectors[i], coding.flips[i]);
      NormalTransform.OriginalExact(c, NormalCodec.Towards(c, coding.vectors[i], coding.flips[i]),
        NormalCodec.GeometricCorrection(c, values[i], coding.vectors[i], coding.flips[i]));
    }
  }

  lemma HeadAndBody(head: seq<byte>, symbols: seq<byte>, tail: seq<byte>, suffix: seq<byte>)
    ensures var r := head + symbols + tail + suffix;
            |r| >= |head| && r[|head|..] == symbols + (tail + suffix) && forall i :: 0 <= i < |head| ==> r[i] == head[i]
  {
    var r := head + symbols + tail + suffix;
    assert r == head + (symbols + (tail + suffix));
  }

  /** The law of the format with prediction: canonical normals come back from their bytes, for every
      number of quantisation bits, every predicted vector and every choice of flips. */
  lemma NormalsRoundTrip(q: nat, coding: Coding, values: seq<Point>, vectors: seq<Vector>, out: seq<byte>, suffix: seq<byte>)
    requires 2 <= q <= 30 && CodingOk(coding, |values|) && !coding.Unpredicted? && NormalCodec.AllCanonical(CenterOf(q), values)
    requires IsNormals(q, coding, values, out) && |vectors| == |values| && (coding.Geometric? ==> coding.vectors == vectors && |values| + 3 < WORD)
    ensures ReadNormals(vectors, |values|, out + suffix) == Normals(values, suffix)
  {
    hide IsSymbolBytes, ReadSymbolBytes, Pow2, NormalCodec.AllInRange, NormalCodec.AllCanonical, Residuals, Numbers, Paired, Unsigned, AsInt32;
    hide TransformBytes, ReadTransform, BitStream, OpenBits, DecodeBits, AllWords, NormalCodec.Undone32, FromGeometry;
    var c := CenterOf(q);
    var residuals := Residuals(c, coding, values);
    var numbers := Numbers(residuals);
    var symbols :| IsSymbolBytes(Unsigned(numbers), 2, symbols) && out == Head(coding) + symbols + Tail(c, coding);
    WordsStay(numbers);
    PairedNumbers(residuals);
    HeadAndBody(Head(coding), symbols, Tail(c, coding), suffix);
    SymbolBytesRoundTrip(Unsigned(numbers), 2, symbols, Tail(c, coding) + suffix);
    ResidualsInRange(q, coding, values);
    if coding.Differenced? {
      TransformRoundTrip(q, suffix);
      DifferencedBack(c, values);
    } else {
      assert Tail(c, coding) + suffix == TransformBytes(c) + (BitStream(coding.p0, coding.flips) + suffix);
      TransformRoundTrip(q, BitStream(coding.p0, coding.flips) + suffix);
      FlipsBack(coding.p0, coding.flips, suffix);
      GeometryBack(c, coding, values);
    }
  }

  lemma DifferencedBack(c: int, values: seq<Point>)
    requires Center(c) && NormalCodec.AllCanonical(c, values)
    ensures NormalCodec.Undone32(c, Residuals(c, Differenced, values)) == values
  {
    hide NormalCodec.Differences, Canonical, OnSquare;
    NormalCodec.CanonicalUndone(c, values);
    NormalCodec.DifferencesInRange(c, values);
    NormalCodec.UndoneExact(c, NormalCodec.Differences(c, values));
  }

  lemma FlipsBack(p0: nat, flips: seq<bool>, suffix: seq<byte>)
    requires ZeroProb(p0) && |flips| + 3 < WORD
    ensures OpenBits(BitStream(p0, flips) + suffix) == Some((p0, EncodeBits(p0, flips), suffix))
    ensures DecodeBits(EncodeBits(p0, flips), p0, |flips|).0 == flips
  {
    ShortStreamFits(p0, flips);
    OpenOfStream(p0, flips, suffix);
    BitRoundTrip(p0, flips, suffix);
  }

  // ---- without prediction ----------------------------------------------------------------------------------

  lemma OnlyZeroStays(v: int)
    requires 0 <= v < 0x8000_0000
    ensures SignedOf(U32(v)) == v <==> v == 0
  {
    SignedMagnitude(U32(v));
  }

  predicate AllZero(values: seq<Point>)
  {
    forall i :: 0 <= i < |values| ==> values[i] == Point(0, 0)
  }

  /** Without prediction the two sides disagree: the encoder stores coordinates as they are, the
      decoder takes them for signed numbers.  Decoding succeeds, and gives the normals back exactly
      when every coordinate is zero. */
  lemma PlainNormals(q: nat, values: seq<Point>, vectors: seq<Vector>, out: seq<byte>, suffix: seq<byte>)
    requires 2 <= q <= 30 && IsNormals(q, Unpredicted, values, out) && |vectors| == |values|
    ensures var r := ReadNormals(vectors, |values|, out + suffix);
            r.Normals? && r.rest == suffix && (r.values == values <==> AllZero(values))
  {
    hide IsSymbolBytes, ReadSymbolBytes, Pow2, SignedOf, U32, Numbers, Unsigned, AllWords, Paired, Signed, CenterOf, AllZero;
    var c := CenterOf(q);
    var numbers := Numbers(values);
    var symbols :| IsSymbolBytes(Unsigned(numbers), 2, symbols) && out == Head(Unpredicted) + symbols + Tail(c, Unpredicted);
    WordsStay(numbers);
    HeadAndBody(Head(Unpredicted), symbols, [], suffix);
    SymbolBytesRoundTrip(Unsigned(numbers), 2, symbols, [] + suffix);
    assert [] + suffix == suffix;
    MisreadNormals(values);
  }

  lemma MisreadNormals(values: seq<Point>)
    requires AllWords(Numbers(values))
    ensures Paired(Signed(Unsigned(Numbers(values)))) == values <==> AllZero(values)
  {
    hide SignedOf, U32;
    var read := Paired(Signed(Unsigned(Numbers(values))));
    forall i | 0 <= i < |values|
      ensures read[i] == values[i] <==> values[i] == Point(0, 0)
    {
      var numbers := Numbers(values);
      assert numbers[2 * i] == values[i].s && numbers[2 * i + 1] == values[i].t;
      OnlyZeroStays(values[i].s);
      OnlyZeroStays(values[i].t);
    }
    if AllZero(values) {
      assert forall i :: 0 <= i < |values| ==> read[i] == values[i];
    }
  }
}
