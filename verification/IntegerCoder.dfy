/** Encoding and decoding one sequential integer attribute (integer_codec.go). */
module IntegerCoding {
  import opened Bits
  import opened Stream
  import opened Rans
  import opened RansBit
  import opened Wrapping
  import opened Prediction
  import opened Predictors
  import opened TexCoords
  import opened TexCoding

  import opened IntegerCodec
  import CreaseFlags
  import ConstrainedCoding
  import SymbolStreams
  import SymbolCoding

  // ---- raw symbols -----------------------------------------------------------------------------------

  method EncodeRawSymbols(symbols: seq<nat>) returns (out: seq<byte>)
    requires SymbolStreams.Words(symbols)
    ensures 1 <= RawWidth(symbols) <= 4 && out == RawSymbolBytes(symbols)
  {
    hide LeBytes, BitLength, Or;
    var masked := 0;
    for i := 0 to |symbols|
      invariant masked == OrAll(symbols[..i])
    {
      assert symbols[..i + 1][..i] == symbols[..i];
      masked := Or(masked, symbols[i]);
    }
    assert symbols[..|symbols|] == symbols;
    WidthFits(symbols);
    var width := if masked == 0 then 1 else (BitLength(masked) + 7) / 8;
    out := [width];
    for i := 0 to |symbols|
      invariant out + FixedWidth(symbols[i..], width) == RawSymbolBytes(symbols)
    {
      assert symbols[i..][1..] == symbols[i + 1..];
      var part := LeBytes(symbols[i], width);
      assert out + (part + FixedWidth(symbols[i + 1..], width)) == out + part + FixedWidth(symbols[i + 1..], width);
      out := out + part;
    }
    assert symbols[|symbols|..] == [] && out + [] == out;
  }

  method DecodeRawSymbols(r: seq<byte>, count: nat) returns (result: Option<(seq<nat>, seq<byte>)>)
    ensures result == ReadRawSymbols(r, count)
  {
    hide LeValue;
    if r == [] {
      return None;
    }
    var width := r[0];
    if width == 0 || width > 4 {
      return None;
    }
    var symbols: seq<nat>, rest := [], r[1..];
    Preceded([], ReadFixed(rest, count, width));
    for i := 0 to count
      invariant ReadRawSymbols(r, count) == After(symbols, ReadFixed(rest, count - i, width))
    {
      FixedStep(symbols, rest, count - i, width);
      if |rest| < width as nat {
        return None;
      }
      symbols, rest := symbols + [LeValue(rest[..width])], rest[width..];
    }
    assert symbols + [] == symbols;
    result := Some((symbols, rest));
  }

  function After(symbols: seq<nat>, o: Option<(seq<nat>, seq<byte>)>): Option<(seq<nat>, seq<byte>)>
  {
    match o
    case None => None
    case Some((more, rest)) => Some((symbols + more, rest))
  }

  lemma Preceded(symbols: seq<nat>, o: Option<(seq<nat>, seq<byte>)>)
    ensures After([], o) == o
  {
    if o.Some? {
      assert [] + o.value.0 == o.value.0;
    }
  }

  lemma FixedStep(symbols: seq<nat>, r: seq<byte>, count: nat, width: nat)
    requires count > 0
    ensures After(symbols, ReadFixed(r, count, width)) ==
            if |r| < width then None
            else After(symbols + [LeValue(r[..width])], ReadFixed(r[width..], count - 1, width))
  {
    hide LeValue;
    if |r| >= width {
      var o := ReadFixed(r[width..], count - 1, width);
      if o.Some? {
        assert symbols + ([LeValue(r[..width])] + o.value.0) == symbols + [LeValue(r[..width])] + o.value.0;
      }
    }
  }

  // ---- symbols of either form ----------------------------------------------------------------------------

  /** Options of the entropy coder; the last one stands for its size estimates. */
  datatype Options = Options(builtIn: bool, scheme: int, level: int, preferTagged: bool)

  /** The entropy coder, where it is used, refuses these symbols. */
  predicate Refused(symbols: seq<nat>, n: nat, options: Options)
    requires n > 0
  {
    options.builtIn && SymbolCoding.Refused(symbols, n, options.scheme, options.preferTagged)
  }

  method EncodeSymbolBytes(symbols: seq<nat>, n: nat, options: Options, rounding: (seq<nat>, nat) -> SymbolCoding.Rounding)
    returns (ok: bool, out: seq<byte>)
    requires n > 0 && SymbolStreams.Words(symbols) && |symbols| < WORD && SymbolCoding.Rounds(rounding)
    ensures ok ==> IsSymbolBytes(symbols, n, out)
    ensures ok <==> !Refused(symbols, n, options)
  {
    hide SymbolStreams.IsEncoding, RawSymbolBytes, RawWidth, SymbolCoding.Refused;
    if !options.builtIn {
      var raw := EncodeRawSymbols(symbols);
      assert ([0] + raw)[1..] == raw;
      return true, [0] + raw;
    }
    var packed: seq<byte>;
    ghost var p: seq<nat>;
    ghost var bits: byte;
    ok, packed, p, bits := SymbolCoding.EncodeSymbols(symbols, n, options.scheme, options.preferTagged, options.level, rounding);
    out := [1] + packed;
    assert out[1..] == packed;
  }

  method DecodeSymbolBytes(r: seq<byte>, count: nat, n: nat) returns (result: Option<(seq<nat>, seq<byte>)>)
    requires n > 0 && count % n == 0
    ensures result == ReadSymbolBytes(r, count, n)
  {
    if r == [] {
      return None;
    }
    if r[0] > 0 {
      result := SymbolCoding.DecodeSymbols(r[1..], count, n);
    } else {
      result := DecodeRawSymbols(r[1..], count);
    }
  }

  // ---- rows as 32-bit numbers ----------------------------------------------------------------------------

  ghost predicate RowsInt32(rows: seq<Row>)
  {
    forall i :: 0 <= i < |rows| ==> AllInt32(rows[i])
  }

  lemma {:induction false} FlatInt32(rows: seq<Row>)
    requires RowsInt32(rows)
    ensures AllInt32(Flat(rows))
    decreases |rows|
  {
    if rows != [] {
      FlatInt32(rows[1..]);
    }
  }

  lemma {:induction false} FlatInside(rows: seq<Row>, b: Bounds, i: nat)
    requires RowInside(b, Flat(rows)) && i < |rows|
    ensures RowInside(b, rows[i])
    decreases |rows|
  {
    var flat := Flat(rows);
    assert forall k :: 0 <= k < |rows[0]| ==> rows[0][k] == flat[k];
    assert forall k :: 0 <= k < |Flat(rows[1..])| ==> Flat(rows[1..])[k] == flat[|rows[0]| + k];
    if i > 0 {
      FlatInside(rows[1..], b, i - 1);
    }
  }

  lemma AllRowsInside(rows: seq<Row>, b: Bounds)
    requires RowInside(b, Flat(rows)) && ValidBounds(b)
    ensures Bounded(b, rows)
  {
    hide RowInside, Flat, ValidBounds;
    forall i | 0 <= i < |rows|
      ensures RowInside(b, rows[i])
    {
      FlatInside(rows, b, i);
    }
  }

  lemma CorrectInt32(b: Bounds, original: Row, predicted: Row)
    requires |original| == |predicted|
    ensures AllInt32(CorrectRow(b, original, predicted))
  {
    hide S32, Clamp, MinCorrection, MaxCorrection, MaxDif;
  }

  lemma CorrectionsInt32(ctx: Context, kind: Kind, b: Bounds, values: seq<Row>, n: nat)
    requires Valid(ctx) && Rows(values, n) && Suits(ctx, kind, |values|)
    ensures RowsInt32(Corrections(ctx, kind, b, values, n))
  {
    hide CorrectRow, Predicted, AllInt32, Valid;
    forall i | 0 <= i < |values|
      ensures AllInt32(Corrections(ctx, kind, b, values, n)[i])
    {
      CorrectInt32(b, values[i], Predicted(ctx, kind, i, values, n));
    }
  }

  lemma TexCorrectionsInt32(t: TexContext, b: Bounds, values: seq<Row>, picks: seq<bool>)
    requires ValidTex(t) && Rows(values, 2) && |picks| == |values|
    ensures RowsInt32(TexCorrections(t, b, values, picks))
  {
    hide CorrectRow, PlanAt, Picked, AllInt32, ValidTex;
    forall i | 0 <= i < |values|
      ensures AllInt32(TexCorrections(t, b, values, picks)[i])
    {
      CorrectInt32(b, values[i], Picked(PlanAt(t, i, values), picks[i]));
    }
  }

  /** Residuals are as many 32-bit numbers as the values. */
  lemma ResidualsInt32(t: TexContext, plan: Decision, values: seq<Row>, n: nat)
    requires ValidTex(t) && PlanOk(t, plan, values, n) && !plan.Plain?
    ensures AllInt32(Flat(Residuals(t, plan, values, n))) && |Flat(Residuals(t, plan, values, n))| == |Flat(values)|
  {
    hide Corrections, TexCorrections, Flat, ValidTex, Bounded, Sound, CreaseFlags.Masks, RowsInt32, AllInt32;
    var rows := Residuals(t, plan, values, n);
    FlatRoundTrip(values, n);
    FlatRoundTrip(rows, n);
    match plan
    case Simple(b, kind) =>
      ContextOf(t);
      CorrectionsInt32(t.ctx, kind, b, values, n);
      FlatInt32(rows);
    case Masked(b, masks, p0s) =>
      ContextOf(t);
      MasksSuit(t.ctx, masks);
      CorrectionsInt32(t.ctx, Chosen(masks), b, values, n);
      FlatInt32(rows);
    case Textured(b, picks, p0) =>
      TexCorrectionsInt32(t, b, values, picks);
      FlatInt32(rows);
  }

  lemma ContextOf(t: TexContext)
    requires ValidTex(t)
    ensures Valid(t.ctx)
  {
  }

  lemma MasksSuit(ctx: Context, masks: seq<CreaseFlags.Mask>)
    requires Valid(ctx) && CreaseFlags.Masks(ctx, masks)
    ensures Suits(ctx, Chosen(masks), |masks|)
  {
  }

  // ---- encoding --------------------------------------------------------------------------------------------

  /** The configured method, with what its comparisons and probability estimates came to. */
  datatype Selection =
    | NoPrediction
    | Predict(kind: Kind)
    | Constrained(choices: seq<nat>, p0s: seq<nat>)
    | TexCoordsPortable(picks: seq<bool>, p0: nat)

  predicate SelectionOk(selection: Selection, entries: nat)
  {
    match selection
    case NoPrediction => true
    case Predict(kind) => !kind.Chosen?
    case Constrained(choices, p0s) => |choices| == entries && ProbsOk(p0s)
    case TexCoordsPortable(picks, p0) => |picks| == entries && ZeroProb(p0)
  }

  /** Texture coordinates need two components, a readable position wherever one is used, and no
      more entries than their count can hold. */
  ghost predicate TexCoordsFail(t: TexContext, selection: Selection, values: seq<Row>, n: nat)
    requires ValidTex(t) && Rows(values, n)
  {
    selection.TexCoordsPortable? && (n != 2 || !Sound(t, values) || |values| >= 0x8000_0000)
  }

  /** The entropy coder refuses the residuals' symbols. */
  ghost predicate ResidualsRefused(t: TexContext, plan: Decision, values: seq<Row>, n: nat, options: Options)
    requires ValidTex(t) && n > 0
  {
    PlanOk(t, plan, values, n) && AllInt32(Flat(Residuals(t, plan, values, n))) &&
    Refused(SymbolsOf(Flat(Residuals(t, plan, values, n))), n, options)
  }

  /** Values too far apart to wrap. */
  ghost predicate TooWide(flat: seq<int>)
  {
    exists i, j :: 0 <= i < |flat| && 0 <= j < |flat| && flat[i] - flat[j] >= 0x7fff_ffff
  }

  /** Bounds that values reach. */
  ghost predicate Reached(plan: Decision, flat: seq<int>)
  {
    plan.Plain? || (plan.b.min in flat && plan.b.max in flat)
  }

  /** Prediction is used: it is selected, and there are values that wrap. */
  ghost predicate Predicts(selection: Selection, values: seq<Row>)
  {
    !selection.NoPrediction? && values != [] && !TooWide(Flat(values))
  }

  /** The decision takes the selected method with its choices. */
  ghost predicate Follows(ctx: Context, selection: Selection, plan: Decision)
    requires Valid(ctx)
  {
    match selection
    case NoPrediction => plan.Plain?
    case Predict(kind) => plan.Simple? && plan.kind == kind
    case Constrained(choices, p0s) => plan.Masked? && plan.masks == ConstrainedCoding.MasksFrom(ctx, choices) && plan.p0s == p0s
    case TexCoordsPortable(picks, p0) => plan.Textured? && plan.picks == picks && plan.p0 == p0
  }

  /** What is decided for the values: the selected method with the tightest bounds, or no prediction. */
  ghost predicate Decided(t: TexContext, selection: Selection, plan: Decision, values: seq<Row>, n: nat)
    requires ValidTex(t)
  {
    PlanOk(t, plan, values, n) &&
    if Predicts(selection, values) then Follows(t.ctx, selection, plan) && Reached(plan, Flat(values)) else plan.Plain?
  }

  /** Encodes an attribute; without prediction when there are no values or they are too far apart. */
  method EncodeAttribute(t: TexContext, selection: Selection, values: array<Row>, n: nat, options: Options, rounding: (seq<nat>, nat) -> SymbolCoding.Rounding)
    returns (ok: bool, out: seq<byte>, ghost plan: Decision)
    requires ValidTex(t) && n > 0 && Rows(values[..], n) && AllInt32(Flat(values[..])) && |Flat(values[..])| < WORD
    requires SelectionOk(selection, values.Length) && SymbolCoding.Rounds(rounding)
    ensures ok ==> Decided(t, selection, plan, values[..], n) && IsAttribute(t, plan, values[..], n, out)
    ensures !ok ==> (Predicts(selection, values[..]) && TexCoordsFail(t, selection, values[..], n)) ||
                    (Decided(t, selection, plan, values[..], n) && ResidualsRefused(t, plan, values[..], n, options))
  {
    hide SymbolStreams.Words, Rows, SymbolCoding.Rounds, ValidTex, Flat, TooWide, AllInt32, IsAttribute, PlanOk, ResidualsRefused, TexCoordsFail, Follows;
    plan := Plain;
    FlatRoundTrip(values[..], n);
    var flat := Flat(values[..]);
    var transform := new Wrap();
    var wraps, b := InitTransform(transform, flat, n);
    if !wraps || selection.NoPrediction? {
      ok, out := EncodePlain(t, values[..], n, options, rounding);
      EmptyFlat(values[..], n);
      return;
    }
    EmptyFlat(values[..], n);
    AllRowsInside(values[..], b);
    var rows, head, tail;
    ok, rows, head, tail, plan := EncodePredicted(t, selection, transform, b, values, n);
    if !ok {
      return false, [], plan;
    }
    ResidualsInt32(t, plan, values[..], n);
    ok, out := EncodeRows(t, plan, values[..], n, rows, head, tail, options, rounding);
  }

  lemma EmptyFlat(rows: seq<Row>, n: nat)
    requires n > 0 && Rows(rows, n)
    ensures Flat(rows) == [] <==> rows == []
  {
  }

  /** Bounds of the values; false when there are none or they are too far apart. */
  method InitTransform(transform: Wrap, flat: seq<int>, n: nat) returns (wraps: bool, ghost b: Bounds)
    requires AllInt32(flat)
    modifies transform
    ensures transform.clampedScratch == old(transform.clampedScratch) || fresh(transform.clampedScratch)
    ensures transform.numComponents == n
    ensures wraps <==> flat != [] && !TooWide(flat)
    ensures wraps ==> transform.Is(b) && RowInside(b, flat) && b.min in flat && b.max in flat
  {
    hide MaxCorrection, MinCorrection, MaxDif;
    wraps, b := transform.InitFromValues(flat, n);
    if |flat| == 0 {
      wraps := false;
    }
    if wraps {
      NotTooWide(flat, b);
    }
  }

  lemma NotTooWide(flat: seq<int>, b: Bounds)
    requires ValidBounds(b) && RowInside(b, flat)
    ensures !TooWide(flat)
  {
  }

  method EncodePlain(t: TexContext, values: seq<Row>, n: nat, options: Options, rounding: (seq<nat>, nat) -> SymbolCoding.Rounding)
    returns (ok: bool, out: seq<byte>)
    requires ValidTex(t) && n > 0 && Rows(values, n) && AllInt32(Flat(values)) && |Flat(values)| < WORD && SymbolCoding.Rounds(rounding)
    ensures PlanOk(t, Plain, values, n)
    ensures ok ==> IsAttribute(t, Plain, values, n, out)
    ensures ok <==> !ResidualsRefused(t, Plain, values, n, options)
  {
    hide SymbolStreams.Words, Refused, ResidualsRefused, Rows, SymbolCoding.Rounds, ValidTex, Flat, AllInt32, IsAttribute;
    ok, out := EncodeRows(t, Plain, values, n, values, [NONE], [], options, rounding);
  }

  /** Joins the head, the residuals' symbols and the tail. */
  method EncodeRows(t: TexContext, ghost plan: Decision, ghost values: seq<Row>, n: nat, rows: seq<Row>, head: seq<byte>, tail: seq<byte>,
      options: Options, rounding: (seq<nat>, nat) -> SymbolCoding.Rounding)
    returns (ok: bool, out: seq<byte>)
    requires ValidTex(t) && PlanOk(t, plan, values, n) && rows == Residuals(t, plan, values, n) && n > 0
    requires head == Head(plan) && tail == SideData(t, plan, values, n) && AllInt32(Flat(rows)) && |Flat(rows)| < WORD && SymbolCoding.Rounds(rounding)
    ensures ok ==> IsAttribute(t, plan, values, n, out)
    ensures ok <==> !ResidualsRefused(t, plan, values, n, options)
  {
    hide SymbolStreams.Words, Refused, SymbolCoding.Rounds, ValidTex, Flat, PlanOk, Residuals, Head, SideData, SymbolOf, IsSymbolBytes;
    var flat := Flat(rows);
    SignedSymbols(flat);
    var symbols := ConvertToSymbols(flat);
    var bytes;
    ok, bytes := EncodeSymbolBytes(symbols, n, options, rounding);
    out := head + bytes + tail;
  }

  method ConvertToSymbols(flat: seq<int>) returns (symbols: seq<nat>)
    requires AllInt32(flat)
    ensures symbols == SymbolsOf(flat)
  {
    hide SymbolOf;
    symbols := [];
    for i := 0 to |flat|
      invariant |symbols| == i && forall k :: 0 <= k < i ==> symbols[k] == SymbolOf(flat[k])
    {
      symbols := symbols + [SymbolOf(flat[i])];
    }
  }

  /** Corrections and side data of the selected method. */
  method EncodePredicted(t: TexContext, selection: Selection, transform: Wrap, ghost b: Bounds, values: array<Row>, n: nat)
    returns (ok: bool, rows: seq<Row>, head: seq<byte>, tail: seq<byte>, ghost plan: Decision)
    requires ValidTex(t) && n > 0 && Rows(values[..], n) && AllInt32(Flat(values[..]))
    requires SelectionOk(selection, values.Length) && !selection.NoPrediction?
    requires transform.Is(b) && transform.numComponents == n && Bounded(b, values[..])
    modifies transform.clampedScratch
    ensures ok ==> !plan.Plain? && plan.b == b && PlanOk(t, plan, values[..], n) && Follows(t.ctx, selection, plan)
    ensures ok ==> rows == Residuals(t, plan, values[..], n) && head == Head(plan) && tail == SideData(t, plan, values[..], n)
    ensures !ok ==> TexCoordsFail(t, selection, values[..], n)
  {
    hide Flat, AllInt32, Sound, Bounded;
    ok, rows, head, tail, plan := true, [], [], [], Plain;
    match selection {
      case Predict(kind) =>
        rows, head, tail := EncodeSimple(t, kind, transform, b, values, n);
        plan := Simple(b, kind);
      case Constrained(choices, p0s) =>
        rows, head, tail, plan := EncodeConstrained(t, choices, p0s, transform, b, values, n);
      case TexCoordsPortable(picks, p0) =>
        if n != 2 {
          return false, rows, head, tail, plan;
        }
        ok, rows, head, tail := EncodeTextured(t, picks, p0, transform, b, values);
        plan := Textured(b, picks, p0);
    }
  }

  method EncodeBounds(transform: Wrap, ghost b: Bounds) returns (out: seq<byte>)
    requires transform.Is(b)
    ensures out == BoundBytes(b)
  {
    out := LeBytes(U32(transform.minValue), 4) + LeBytes(U32(transform.maxValue), 4);
  }

  method EncodeSimple(t: TexContext, kind: Kind, transform: Wrap, ghost b: Bounds, values: array<Row>, n: nat)
    returns (rows: seq<Row>, head: seq<byte>, tail: seq<byte>)
    requires ValidTex(t) && PlanOk(t, Simple(b, kind), values[..], n) && transform.Is(b) && transform.numComponents == n
    modifies transform.clampedScratch
    ensures rows == Residuals(t, Simple(b, kind), values[..], n) && head == Head(Simple(b, kind)) && tail == SideData(t, Simple(b, kind), values[..], n)
  {
    hide Flat, Corrections, AllInt32, Bounded, BoundBytes, MaxDif, MaxCorrection, MinCorrection;
    var corrections := ComputeCorrections(t.ctx, kind, transform, b, values, n);
    rows, head := corrections[..], [KindCode(kind), WRAP];
    tail := EncodeBounds(transform, b);
  }

  method EncodeConstrained(t: TexContext, choices: seq<nat>, p0s: seq<nat>, transform: Wrap, ghost b: Bounds, values: array<Row>, n: nat)
    returns (rows: seq<Row>, head: seq<byte>, tail: seq<byte>, ghost plan: Decision)
    requires ValidTex(t) && n > 0 && Rows(values[..], n) && AllInt32(Flat(values[..])) && Bounded(b, values[..])
    requires |choices| == values.Length && ProbsOk(p0s) && transform.Is(b) && transform.numComponents == n
    modifies transform.clampedScratch
    ensures plan.Masked? && plan.b == b && PlanOk(t, plan, values[..], n)
    ensures plan.masks == ConstrainedCoding.MasksFrom(t.ctx, choices) && plan.p0s == p0s
    ensures rows == Residuals(t, plan, values[..], n) && head == Head(plan) && tail == SideData(t, plan, values[..], n)
  {
    hide Flat, Corrections, AllInt32, Bounded, BoundBytes, MaxDif, MaxCorrection, MinCorrection, CreaseFlags.GroupReversed, CreaseFlags.Collected;
    hide CreaseFlags.FlagsOf, CreaseFlags.FlagBytes, CreaseFlags.Masks, Flaps, Valid, ConstrainedCoding.MasksFrom, ConstrainedCoding.CreaseBytes;
    var corrections, creases, masks := ConstrainedCoding.ComputeConstrainedCorrections(t.ctx, transform, b, values, n, choices);
    plan := Masked(b, masks, p0s);
    rows, head := corrections[..], [4, WRAP];
    CreasesInOrder(t.ctx, masks, creases);
    var flags := ConstrainedCoding.EncodeFlags(creases, p0s);
    ConstrainedCoding.WholeGroups(creases, p0s, 0, CreaseFlags.FlagsOf(t.ctx, masks));
    var bounds := EncodeBounds(transform, b);
    tail := flags + bounds;
  }

  /** The collected flags, reversed by groups, are what is written. */
  lemma CreasesInOrder(ctx: Context, masks: seq<CreaseFlags.Mask>, creases: seq<seq<bool>>)
    requires Valid(ctx) && CreaseFlags.Masks(ctx, masks) && |creases| == MAX_FLAPS
    requires forall c :: 0 <= c < MAX_FLAPS ==> creases[c] == CreaseFlags.Collected(ctx, masks, c, 1)
    ensures forall c :: 0 <= c < MAX_FLAPS ==> |CreaseFlags.GroupReversed(creases[c], c + 1)| == |creases[c]|
    ensures |CreaseFlags.FlagsOf(ctx, masks)| == MAX_FLAPS
    ensures forall c :: 0 <= c < MAX_FLAPS ==> CreaseFlags.GroupReversed(creases[c], c + 1) == CreaseFlags.FlagsOf(ctx, masks)[c]
  {
    hide CreaseFlags.Collected, CreaseFlags.GroupReversed, CreaseFlags.Onward, Valid, CreaseFlags.Masks;
    forall c | 0 <= c < MAX_FLAPS
      ensures CreaseFlags.GroupReversed(creases[c], c + 1) == CreaseFlags.Onward(ctx, masks, c, 1)
      ensures |CreaseFlags.GroupReversed(creases[c], c + 1)| == |creases[c]|
    {
      CreaseFlags.CollectedBackwards(ctx, masks, c, 1);
      SameLength(ctx, masks, c, 1);
    }
  }

  lemma {:induction false} SameLength(ctx: Context, masks: seq<CreaseFlags.Mask>, c: nat, id: nat)
    requires Valid(ctx) && CreaseFlags.Masks(ctx, masks) && id >= 1
    ensures |CreaseFlags.Collected(ctx, masks, c, id)| == |CreaseFlags.Onward(ctx, masks, c, id)|
    decreases |masks| - id
  {
    hide CreaseFlags.Group;
    if id < |masks| {
      SameLength(ctx, masks, c, id + 1);
    }
  }

  method EncodeTextured(t: TexContext, picks: seq<bool>, p0: nat, transform: Wrap, ghost b: Bounds, values: array<Row>)
    returns (ok: bool, rows: seq<Row>, head: seq<byte>, tail: seq<byte>)
    requires ValidTex(t) && Rows(values[..], 2) && AllInt32(Flat(values[..])) && Bounded(b, values[..])
    requires |picks| == values.Length && ZeroProb(p0) && transform.Is(b) && transform.numComponents == 2
    modifies transform.clampedScratch
    ensures ok ==> PlanOk(t, Textured(b, picks, p0), values[..], 2)
    ensures ok ==> rows == Residuals(t, Textured(b, picks, p0), values[..], 2)
    ensures ok ==> head == Head(Textured(b, picks, p0)) && tail == SideData(t, Textured(b, picks, p0), values[..], 2)
    ensures !ok ==> !Sound(t, values[..]) || values.Length >= 0x8000_0000
  {
    hide Flat, TexCorrections, AllInt32, Bounded, BoundBytes, MaxDif, MaxCorrection, MinCorrection, Sound, Orientations, OrientationBytes;
    rows, head, tail := [], [], [];
    var corrections, orientations;
    ok, corrections, orientations := ComputeTexCorrections(t, transform, b, values, picks);
    if !ok {
      return;
    }
    OrientationCount(t, values[..], picks, 0);
    rows, head := corrections[..], [5, WRAP];
    var bytes;
    ok, bytes := EncodeOrientations(orientations, p0);
    var bounds := EncodeBounds(transform, b);
    tail := bytes + bounds;
  }

  lemma {:induction false} OrientationCount(t: TexContext, values: seq<Row>, picks: seq<bool>, id: nat)
    requires ValidTex(t) && Rows(values, 2) && |picks| == |values| && id <= |values|
    ensures |Orientations(t, values, picks, id)| <= |values| - id
    decreases |values| - id
  {
    hide PlanAt, ValidTex;
    if id < |values| {
      OrientationCount(t, values, picks, id + 1);
    }
  }

  // ---- decoding --------------------------------------------------------------------------------------------

  method ConvertToRows(symbols: seq<nat>, n: nat) returns (rows: seq<Row>)
    requires n > 0
    ensures rows == Unflat(Signed(symbols), n) && Rows(rows, n)
  {
    hide SignedOf;
    var flat: seq<int> := [];
    for i := 0 to |symbols|
      invariant |flat| == i && forall k :: 0 <= k < i ==> flat[k] == SignedOf(symbols[k])
    {
      flat := flat + [SignedOf(symbols[i])];
    }
    assert flat == Signed(symbols);
    rows := [];
    var at := 0;
    assert flat[0..] == flat;
    while at + n <= |flat|
      invariant at <= |flat| && Rows(rows, n)
      invariant rows + Unflat(flat[at..], n) == Unflat(flat, n)
    {
      assert flat[at..][..n] == flat[at..at + n] && flat[at..][n..] == flat[at + n..];
      assert rows + ([flat[at..at + n]] + Unflat(flat[at + n..], n)) == rows + [flat[at..at + n]] + Unflat(flat[at + n..], n);
      rows := rows + [flat[at..at + n]];
      at := at + n;
    }
    assert rows + [] == rows;
  }

  method DecodeBounds(r: seq<byte>, n: nat) returns (ok: bool, transform: Wrap, rest: seq<byte>)
    ensures fresh(transform) && fresh(transform.clampedScratch) && ok == ReadBounds(r).Some?
    ensures ok ==> rest == ReadBounds(r).value.1 && transform.Is(ReadBounds(r).value.0) && transform.numComponents == n
  {
    hide ReadUint32, MaxDif, MaxCorrection, MinCorrection, S32;
    transform := new Wrap();
    transform.Init(n);
    ok, rest := false, [];
    var lo := ReadUint32(r);
    if lo.None? {
      return;
    }
    var hi := ReadUint32(lo.value.1);
    if hi.None? {
      return;
    }
    var min, max := S32(lo.value.0), S32(hi.value.0);
    if min > max {
      return;
    }
    ok := transform.SetBounds(min, max);
    rest := hi.value.1;
  }

  /** Decodes an attribute; the buffer for its values may hold anything before.  Room is what reused
      buffers can hold: a difference method without entries takes one row from them. */
  method DecodeAttribute(t: TexContext, entries: nat, n: nat, r: seq<byte>, buffer: array<Row>, room: nat)
    returns (ok: bool, crashed: bool, values: seq<Row>, rest: seq<byte>)
    requires ValidTex(t) && n > 0 && buffer.Length == entries && Rows(buffer[..], n)
    modifies buffer
    ensures crashed == (SlicesEmpty(entries, n, r) && room < n)
    ensures ok == (ReadAttribute(t, entries, n, r).Some? && !crashed)
    ensures ok ==> (values, rest) == ReadAttribute(t, entries, n, r).value
  {
    hide ReadSymbolBytes, ReadTail, Unflat, Signed, ValidTex;
    ok, crashed, values, rest := false, false, [], [];
    if r == [] || (r[0] != NONE && (|r| < 2 || r[1] != WRAP)) {
      return;
    }
    var body := if r[0] == NONE then r[1..] else r[2..];
    ProductDivides(entries, n);
    var decoded := DecodeSymbolBytes(body, entries * n, n);
    if decoded.None? {
      return;
    }
    var corrections := ConvertToRows(decoded.value.0, n);
    SymbolCount(body, entries, n);
    ok, values, rest := DecodeTail(t, r[0], corrections, n, decoded.value.1, buffer);
    TailOfDifference(t, r[0], corrections, n, decoded.value.1);
    if ok && r[0] == 0 && entries == 0 && room < n {
      ok, crashed := false, true;
    }
  }

  lemma TailOfDifference(t: TexContext, code: nat, corrections: seq<Row>, n: nat, r: seq<byte>)
    requires ValidTex(t) && Rows(corrections, n)
    ensures code == 0 ==> (ReadTail(t, code, corrections, n, r).Some? <==> ReadBounds(r).Some?)
  {
    hide ReadBounds, Rebuilt;
  }

  /** Decoded symbols make up all the entries. */
  lemma SymbolCount(r: seq<byte>, entries: nat, n: nat)
    requires n > 0 && entries * n % n == 0
    ensures var o := ReadSymbolBytes(r, entries * n, n); o.Some? ==> |Unflat(Signed(o.value.0), n)| == entries
  {
    hide Signed, ReadFixed, ReadRawSymbols;
    var o := ReadSymbolBytes(r, entries * n, n);
    if o.Some? {
      if r[0] > 0 {
        SymbolStreams.SymbolsCounted(r[1..], entries * n, n);
      } else {
        RawCounted(r[1..], entries * n);
      }
      UnflatSize(Signed(o.value.0), entries, n);
    }
  }

  lemma RawCounted(r: seq<byte>, count: nat)
    ensures ReadRawSymbols(r, count).Some? ==> |ReadRawSymbols(r, count).value.0| == count
  {
    if r != [] && 0 < r[0] <= 4 {
      FixedCounted(r[1..], count, r[0]);
    }
  }

  lemma {:induction false} FixedCounted(r: seq<byte>, count: nat, width: nat)
    ensures ReadFixed(r, count, width).Some? ==> |ReadFixed(r, count, width).value.0| == count
    decreases count
  {
    hide LeValue;
    if count > 0 && |r| >= width {
      FixedCounted(r[width..], count - 1, width);
    }
  }

  lemma {:induction false} UnflatSize(flat: seq<int>, entries: nat, n: nat)
    requires n > 0 && |flat| == entries * n
    ensures |Unflat(flat, n)| == entries
    decreases entries
  {
    if entries > 0 {
      assert |flat| == (entries - 1) * n + n;
      MulMono(0, entries - 1, n);
      UnflatSize(flat[n..], entries - 1, n);
    }
  }

  method DecodeTail(t: TexContext, code: nat, corrections: seq<Row>, n: nat, r: seq<byte>, buffer: array<Row>)
    returns (ok: bool, values: seq<Row>, rest: seq<byte>)
    requires ValidTex(t) && Rows(corrections, n) && buffer.Length == |corrections| && Rows(buffer[..], n)
    modifies buffer
    ensures ok == ReadTail(t, code, corrections, n, r).Some?
    ensures ok ==> (values, rest) == ReadTail(t, code, corrections, n, r).value
  {
    hide ReadSimple, ReadMasked, ReadTextured, ValidTex, Rows;
    ContextOf(t);
    if code == NONE {
      return true, corrections, r;
    }
    if code == 0 {
      ok, values, rest := DecodeSimple(t.ctx, Difference, corrections, n, r, buffer);
    } else if code == 1 {
      ok, values, rest := DecodeSimple(t.ctx, First, corrections, n, r, buffer);
    } else if code == 2 {
      ok, values, rest := DecodeSimple(t.ctx, Average, corrections, n, r, buffer);
    } else if code == 4 {
      ok, values, rest := DecodeMasked(t.ctx, corrections, n, r);
    } else if code == 5 {
      ok, values, rest := DecodeTextured(t, corrections, n, r);
    } else {
      ok, values, rest := false, [], [];
    }
  }

  method DecodeSimple(ctx: Context, kind: Kind, corrections: seq<Row>, n: nat, r: seq<byte>, buffer: array<Row>)
    returns (ok: bool, values: seq<Row>, rest: seq<byte>)
    requires Valid(ctx) && Rows(corrections, n) && !kind.Chosen? && buffer.Length == |corrections| && Rows(buffer[..], n)
    modifies buffer
    ensures ok == ReadSimple(ctx, kind, corrections, n, r).Some?
    ensures ok ==> (values, rest) == ReadSimple(ctx, kind, corrections, n, r).value
  {
    hide ReadBounds, Rebuilt, Valid, Rows, MaxDif, MaxCorrection, MinCorrection;
    values := [];
    var transform;
    ok, transform, rest := DecodeBounds(r, n);
    if ok {
      RestoreValues(ctx, kind, transform, ReadBounds(r).value.0, corrections, n, buffer);
      values := buffer[..];
    }
  }

  method DecodeMasked(ctx: Context, corrections: seq<Row>, n: nat, r: seq<byte>) returns (ok: bool, values: seq<Row>, rest: seq<byte>)
    requires Valid(ctx) && Rows(corrections, n)
    ensures ok == ReadMasked(ctx, corrections, n, r).Some?
    ensures ok ==> (values, rest) == ReadMasked(ctx, corrections, n, r).value
  {
    hide ReadBounds, CreaseFlags.Decoded, CreaseFlags.ReadFlags, Valid, Rows, MaxDif, MaxCorrection, MinCorrection;
    ok, values, rest := false, [], [];
    var flags := ConstrainedCoding.DecodeFlags(r);
    if flags.None? {
      return;
    }
    var transform;
    ok, transform, rest := DecodeBounds(flags.value.1, n);
    if ok {
      var restored;
      ok, restored := ConstrainedCoding.RestoreConstrained(ctx, transform, ReadBounds(flags.value.1).value.0, corrections, n, flags.value.0);
      values := restored[..];
    }
  }

  method DecodeTextured(t: TexContext, corrections: seq<Row>, n: nat, r: seq<byte>) returns (ok: bool, values: seq<Row>, rest: seq<byte>)
    requires ValidTex(t) && Rows(corrections, n)
    ensures ok == ReadTextured(t, corrections, n, r).Some?
    ensures ok ==> (values, rest) == ReadTextured(t, corrections, n, r).value
  {
    hide ReadBounds, ReadOrientations, ValidTex, TexRebuilt, MaxDif, MaxCorrection, MinCorrection;
    ok, values, rest := false, [], [];
    var orientations := DecodeOrientations(r);
    if orientations.None? {
      return;
    }
    var transform;
    ok, transform, rest := DecodeBounds(orientations.value.1, n);
    if ok && n != 2 {
      return false, [], [];
    }
    if ok {
      var restored, left;
      ok, restored, left := RestoreTexValues(t, transform, ReadBounds(orientations.value.1).value.0, corrections, orientations.value.0);
      values := restored[..];
    }
  }
}
