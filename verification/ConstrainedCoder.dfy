/** The loops of constrained multi-parallelogram prediction and its side data (mesh_prediction.go). */
module ConstrainedCoding {
  import opened Bits
  import opened Wrapping
  import opened Prediction
  import opened Predictors
  import opened Stream
  import opened Rans
  import opened RansBit
  import opened RansBitCoding
  import opened CreaseFlags

  /** A mask from a chosen number, one bit for each parallelogram. */
  ghost function ChosenMask(ctx: Context, choices: seq<nat>, id: nat): (r: Mask)
    requires Valid(ctx) && id < |choices|
    ensures |r| == |Flaps(ctx, id)|
  {
    Lsb(choices[id], |Flaps(ctx, id)|)
  }

  ghost function MasksFrom(ctx: Context, choices: seq<nat>): (r: seq<Mask>)
    requires Valid(ctx)
    ensures |r| == |choices| && Masks(ctx, r)
    ensures forall id :: 0 <= id < |r| ==> r[id] == ChosenMask(ctx, choices, id)
  {
    hide Flaps, Valid, Lsb;
    seq(|choices|, id requires 0 <= id < |choices| => ChosenMask(ctx, choices, id))
  }

  lemma CollectedStep(ctx: Context, masks: seq<Mask>, creases: seq<seq<bool>>, id: nat)
    requires Valid(ctx) && Masks(ctx, masks) && 1 <= id < |masks| && |creases| == MAX_FLAPS
    requires forall c :: 0 <= c < MAX_FLAPS ==> creases[c] == Collected(ctx, masks, c, id + 1)
    ensures var g := |Flaps(ctx, id)|;
            forall c :: 0 <= c < MAX_FLAPS ==>
              (if c == g - 1 then creases[c] + CreaseFlags.Creases(masks[id]) else creases[c]) == Collected(ctx, masks, c, id)
  {
    hide Flaps;
  }

  lemma NothingCollected(ctx: Context, masks: seq<Mask>)
    requires Valid(ctx) && Masks(ctx, masks)
    ensures var end := if masks == [] then 1 else |masks|;
            forall c: nat :: c < MAX_FLAPS ==> Collected(ctx, masks, c, end) == []
  {
  }

  /** Corrections from the last entry to the first, for any choice of masks; the choice is made by
      comparing estimated sizes, which is not modelled. */
  method ComputeConstrainedCorrections(ctx: Context, transform: Wrap, ghost b: Bounds, values: array<Row>, n: nat, choices: seq<nat>)
    returns (corrections: array<Row>, creases: seq<seq<bool>>, ghost masks: seq<Mask>)
    requires Valid(ctx) && transform.Is(b) && transform.numComponents == n && Rows(values[..], n) && |choices| == values.Length
    modifies transform.clampedScratch
    ensures fresh(corrections) && masks == MasksFrom(ctx, choices)
    ensures corrections[..] == Corrections(ctx, Chosen(masks), b, values[..], n)
    ensures |creases| == MAX_FLAPS && forall c :: 0 <= c < MAX_FLAPS ==> creases[c] == Collected(ctx, masks, c, 1)
  {
    hide Predicted, CorrectRow, Valid, Flaps, MasksFrom, Lsb, Collected;
    masks := MasksFrom(ctx, choices);
    NothingCollected(ctx, masks);
    corrections := new Row[values.Length](_ => []);
    creases := [[], [], [], []];
    if values.Length == 0 {
      return;
    }
    corrections[0] := transform.ComputeCorrection(values[0], ZeroRow(n), b);
    FirstPredicted(ctx, Chosen(masks), values[..], n);
    var id := values.Length - 1;
    while id > 0
      invariant 0 <= id < values.Length && transform.Is(b) && transform.numComponents == n && |creases| == MAX_FLAPS
      invariant corrections[0] == Corrections(ctx, Chosen(masks), b, values[..], n)[0]
      invariant forall k :: id < k < values.Length ==> corrections[k] == Corrections(ctx, Chosen(masks), b, values[..], n)[k]
      invariant forall c :: 0 <= c < MAX_FLAPS ==> creases[c] == Collected(ctx, masks, c, id + 1)
    {
      var predicted, flags := PredictChosen(ctx, choices, id, values, n, masks);
      CollectedStep(ctx, masks, creases, id);
      if |flags| > 0 {
        var g := |flags| - 1;
        creases := creases[g := creases[g] + flags];
      }
      corrections[id] := transform.ComputeCorrection(values[id], predicted, b);
      id := id - 1;
    }
  }

  /** The chosen prediction of one entry and its crease flags. */
  method PredictChosen(ctx: Context, choices: seq<nat>, id: nat, values: array<Row>, n: nat, ghost masks: seq<Mask>)
    returns (predicted: Row, flags: seq<bool>)
    requires Valid(ctx) && Rows(values[..], n) && 0 < id < values.Length == |choices| && masks == MasksFrom(ctx, choices)
    ensures predicted == Predicted(ctx, Chosen(masks), id, values[..], n)
    ensures flags == CreaseFlags.Creases(masks[id]) && |flags| == |Flaps(ctx, id)|
  {
    hide Flaps, Total, Divided, Lsb, Valid;
    var flaps := CollectFlaps(ctx, id, MAX_FLAPS);
    var mask := Lsb(choices[id], |flaps|);
    predicted, flags := values[id - 1], [];
    if |flaps| > 0 {
      var sum, used := SumSelected(flaps, mask, values, n, id);
      if used > 0 {
        predicted := DivideRow(sum, used);
      }
      for i := 0 to |flaps|
        invariant flags == CreaseFlags.Creases(mask)[..i]
      {
        flags := flags + [!mask[i]];
      }
    } else {
      NoOnes(mask);
    }
  }

  lemma NoOnes(mask: seq<bool>)
    requires mask == []
    ensures Ones(mask) == 0 && CreaseFlags.Creases(mask) == []
  {
  }

  // ---- restoring -------------------------------------------------------------------------------

  /** The next flags of a context as a mask; false when there are not enough. */
  method TakeMask(flags: seq<bool>, position: nat, g: nat) returns (ok: bool, mask: Mask)
    ensures ok <==> g == 0 || position + g <= |flags|
    ensures ok && g > 0 ==> mask == CreaseFlags.Creases(flags[position..position + g])
    ensures ok ==> |mask| == g
  {
    mask := [];
    for i := 0 to g
      invariant |mask| == i && (i == 0 || position + i <= |flags|)
      invariant i > 0 ==> mask == CreaseFlags.Creases(flags[position..position + i])
    {
      if position + i >= |flags| {
        return false, mask;
      }
      mask := mask + [!flags[position + i]];
    }
    ok := true;
  }

  lemma NotEnough(ctx: Context, flags: seq<seq<bool>>, c: nat, id: nat, entries: nat)
    requires Valid(ctx) && |flags| == MAX_FLAPS && c < MAX_FLAPS && 1 <= id < entries
    requires |Flaps(ctx, id)| == c + 1 && Used(ctx, c, id) + c + 1 > |flags[c]|
    ensures !Enough(ctx, flags, entries)
  {
    hide Flaps;
    UsedGrows(ctx, c, id + 1, entries);
  }

  lemma EnoughStep(ctx: Context, flags: seq<seq<bool>>, id: nat)
    requires Valid(ctx) && |flags| == MAX_FLAPS && Enough(ctx, flags, id)
    requires var g := |Flaps(ctx, id)|; id >= 1 && g > 0 ==> Used(ctx, g - 1, id) + g <= |flags[g - 1]|
    ensures Enough(ctx, flags, id + 1)
  {
    hide Flaps;
  }

  /** One more row, with the masks known so far. */
  lemma ChosenStep(ctx: Context, flags: seq<seq<bool>>, b: Bounds, corrections: seq<Row>, n: nat, id: nat)
    requires Valid(ctx) && Rows(corrections, n) && |flags| == MAX_FLAPS && id < |corrections| && Enough(ctx, flags, id + 1) && Enough(ctx, flags, id)
    ensures var before := Rebuilt(ctx, Chosen(MasksOf(ctx, flags, id)), b, corrections[..id], n);
            Rebuilt(ctx, Chosen(MasksOf(ctx, flags, id + 1)), b, corrections[..id + 1], n) ==
            before + [RestoreRow(b, Predicted(ctx, Chosen(MasksOf(ctx, flags, id + 1)), id, before, n), corrections[id])]
  {
    hide Flaps, Enough, MasksOf, Predicted, RestoreRow, Valid;
    var one, more := MasksOf(ctx, flags, id), MasksOf(ctx, flags, id + 1);
    assert corrections[..id + 1][..id] == corrections[..id];
    forall k | 1 <= k < id
      ensures one[k] == more[k]
    {
      MasksOfAt(ctx, flags, id, k);
      MasksOfAt(ctx, flags, id + 1, k);
    }
    SameMasks(ctx, one, more, b, corrections[..id], n);
  }

  method RestoreConstrained(ctx: Context, transform: Wrap, ghost b: Bounds, corrections: seq<Row>, n: nat, flags: seq<seq<bool>>)
    returns (ok: bool, values: array<Row>)
    requires Valid(ctx) && transform.Is(b) && transform.numComponents == n && Rows(corrections, n) && |flags| == MAX_FLAPS
    modifies transform.clampedScratch
    ensures fresh(values) && ok == Decoded(ctx, b, corrections, n, flags).Some?
    ensures ok ==> values[..] == Decoded(ctx, b, corrections, n, flags).value
  {
    hide Predicted, RestoreRow, Valid, Flaps, Enough, MasksOf, Used;
    values := new Row[|corrections|](_ => ZeroRow(n));
    var positions := [0, 0, 0, 0];
    assert corrections[..|corrections|] == corrections;
    StartUsed(ctx, flags);
    for id := 0 to |corrections|
      invariant fresh(values) && values.Length == |corrections| && Rows(values[..], n)
      invariant transform.Is(b) && transform.numComponents == n && |positions| == MAX_FLAPS
      invariant forall c :: 0 <= c < MAX_FLAPS ==> positions[c] == Used(ctx, c, id)
      invariant Enough(ctx, flags, id)
      invariant values[..id] == Rebuilt(ctx, Chosen(MasksOf(ctx, flags, id)), b, corrections[..id], n)
    {
      var predicted: Row;
      ok, predicted, positions := PredictNext(ctx, flags, positions, id, values, n, |corrections|);
      if !ok {
        return;
      }
      ChosenStep(ctx, flags, b, corrections, n, id);
      LooksBack(ctx, Chosen(MasksOf(ctx, flags, id + 1)), id, values[..], values[..id], n);
      ghost var before := values[..id];
      var row := transform.ComputeOriginalValue(predicted, corrections[id], b);
      values[id] := row;
      assert values[..id + 1] == before + [row];
    }
    ok := true;
  }

  lemma StartUsed(ctx: Context, flags: seq<seq<bool>>)
    requires Valid(ctx) && |flags| == MAX_FLAPS
    ensures Enough(ctx, flags, 0) && forall c :: 0 <= c < MAX_FLAPS ==> Used(ctx, c, 0) == 0
  {
  }

  /** Takes the masks of the next entry off its context and predicts with them. */
  method PredictNext(ctx: Context, flags: seq<seq<bool>>, positions: seq<nat>, id: nat, values: array<Row>, n: nat, ghost entries: nat)
    returns (ok: bool, predicted: Row, after: seq<nat>)
    requires Valid(ctx) && |flags| == MAX_FLAPS && |positions| == MAX_FLAPS && Enough(ctx, flags, id)
    requires Rows(values[..], n) && id < values.Length && id < entries
    requires forall c :: 0 <= c < MAX_FLAPS ==> positions[c] == Used(ctx, c, id)
    ensures |after| == MAX_FLAPS && (ok ==> forall c :: 0 <= c < MAX_FLAPS ==> after[c] == Used(ctx, c, id + 1))
    ensures if ok then Enough(ctx, flags, id + 1) && predicted == Predicted(ctx, Chosen(MasksOf(ctx, flags, id + 1)), id, values[..], n)
            else !Enough(ctx, flags, entries)
  {
    hide Flaps, Total, Divided, Valid, Enough, MasksOf;
    after := positions;
    if id == 0 {
      ok, predicted := true, ZeroRow(n);
      EnoughStep(ctx, flags, 0);
      FirstPredicted(ctx, Chosen(MasksOf(ctx, flags, 1)), values[..], n);
      return;
    }
    predicted := values[id - 1];
    var flaps := CollectFlaps(ctx, id, MAX_FLAPS);
    var g := |flaps|;
    if g == 0 {
      EnoughStep(ctx, flags, id);
      MasksOfAt(ctx, flags, id + 1, id);
      NoOnes([]);
      return true, predicted, after;
    }
    var mask: Mask;
    ok, mask := TakeMask(flags[g - 1], positions[g - 1], g);
    if !ok {
      NotEnough(ctx, flags, g - 1, id, entries);
      return;
    }
    after := positions[g - 1 := positions[g - 1] + g];
    EnoughStep(ctx, flags, id);
    MasksOfAt(ctx, flags, id + 1, id);
    var sum, used := SumSelected(flaps, mask, values, n, id);
    if used > 0 {
      predicted := DivideRow(sum, used);
    }
  }

  // ---- side data ---------------------------------------------------------------------------------

  /** The count of one context's flags, and its whole groups from the end. */
  function GroupBytes(flags: seq<bool>, g: nat, p0: nat): seq<byte>
    requires g > 0 && ZeroProb(p0)
  {
    VarBytes(U32(|flags|)) + if flags == [] then [] else BitStream(p0, GroupReversed(flags, g))
  }

  /** The bytes of the contexts from c on, in groups of c + 1. */
  function CreaseBytes(creases: seq<seq<bool>>, p0: seq<nat>, c: nat): seq<byte>
    requires |p0| == |creases| && forall i :: 0 <= i < |p0| ==> ZeroProb(p0[i])
    decreases |creases| - c
  {
    if c >= |creases| then [] else GroupBytes(creases[c], c + 1, p0[c]) + CreaseBytes(creases, p0, c + 1)
  }

  /** Flags in whole groups are written as the reader expects them, in the order of their groups. */
  lemma {:induction false} WholeGroups(creases: seq<seq<bool>>, p0: seq<nat>, c: nat, flags: seq<seq<bool>>)
    requires c <= |p0| == |creases| == |flags| && forall i :: 0 <= i < |p0| ==> ZeroProb(p0[i])
    requires forall i :: 0 <= i < |creases| ==> flags[i] == GroupReversed(creases[i], i + 1) && |flags[i]| == |creases[i]|
    ensures CreaseBytes(creases, p0, c) == FlagBytes(flags[c..], p0[c..])
    decreases |creases| - c
  {
    hide GroupReversed, VarBytes, BitStream;
    if c < |creases| {
      WholeGroups(creases, p0, c + 1, flags);
      assert flags[c..][1..] == flags[c + 1..] && p0[c..][1..] == p0[c + 1..];
    }
  }

  /** Writes the collected flags of every context, group by group from the end. */
  method EncodeFlags(creases: seq<seq<bool>>, zeroProbs: seq<nat>) returns (out: seq<byte>)
    requires |zeroProbs| == |creases| == MAX_FLAPS && forall c :: 0 <= c < MAX_FLAPS ==> ZeroProb(zeroProbs[c])
    ensures out == CreaseBytes(creases, zeroProbs, 0)
  {
    hide GroupBytes, GroupReversed;
    out := [];
    for c := 0 to MAX_FLAPS
      invariant out + CreaseBytes(creases, zeroProbs, c) == CreaseBytes(creases, zeroProbs, 0)
    {
      var part := EncodeContext(creases[c], c + 1, zeroProbs[c]);
      out := out + part;
    }
    assert out + [] == out;
  }

  lemma NoGroups(flags: seq<bool>, g: nat)
    requires g > |flags|
    ensures GroupReversed(flags, g) == []
  {
  }

  lemma GroupStep(flags: seq<bool>, start: nat, g: nat, before: seq<bool>)
    requires g > 0 && start + g <= |flags|
    ensures before + flags[start..start + g] + GroupReversed(flags[..start], g) == before + GroupReversed(flags[..start + g], g)
  {
    var part := flags[..start + g];
    assert part[start..] == flags[start..start + g] && part[..start] == flags[..start];
  }

  method EncodeContext(flags: seq<bool>, g: nat, zeroProb: nat) returns (out: seq<byte>)
    requires g > 0 && ZeroProb(zeroProb)
    ensures out == GroupBytes(flags, g, zeroProb)
  {
    hide VarBytes, BitStream, GroupReversed;
    out := VarBytes(U32(|flags|));
    if |flags| == 0 {
      assert out + [] == out;
      return;
    }
    var encoder := new RansBitEncoder();
    encoder.StartEncoding();
    EncodeGroups(encoder, flags, g);
    var ok, stream := encoder.EndEncoding(zeroProb);
    out := out + stream;
  }

  method EncodeGroup(encoder: RansBitEncoder, flags: seq<bool>, start: nat, g: nat)
    requires start + g <= |flags| && encoder.Valid() && !encoder.failed
    modifies encoder
    ensures encoder.Valid() && !encoder.failed && encoder.Contents() == old(encoder.Contents()) + flags[start..start + g]
  {
    hide Words, Lsb;
    for i := 0 to g
      invariant encoder.Valid() && !encoder.failed && encoder.Contents() == old(encoder.Contents()) + flags[start..start + i]
    {
      encoder.EncodeBit(flags[start + i]);
    }
  }

  method EncodeGroups(encoder: RansBitEncoder, flags: seq<bool>, g: nat)
    requires g > 0 && encoder.Valid() && !encoder.failed && encoder.Contents() == []
    modifies encoder
    ensures encoder.Valid() && !encoder.failed && encoder.Contents() == GroupReversed(flags, g)
  {
    hide GroupReversed, Words, Lsb;
    var start: int := |flags| - g;
    assert flags[..start + g] == flags;
    assert [] + GroupReversed(flags, g) == GroupReversed(flags, g);
    while start >= 0
      invariant 0 <= start + g <= |flags| && encoder.Valid() && !encoder.failed
      invariant encoder.Contents() + GroupReversed(flags[..start + g], g) == GroupReversed(flags, g)
    {
      ghost var before := encoder.Contents();
      EncodeGroup(encoder, flags, start, g);
      GroupStep(flags, start, g, before);
      start := start - g;
    }
    NoGroups(flags[..start + g], g);
    assert encoder.Contents() + [] == encoder.Contents();
  }

  method DecodeFlags(r: seq<byte>) returns (result: Option<(seq<seq<bool>>, seq<byte>)>)
    ensures result == ReadFlags(r, MAX_FLAPS)
  {
    hide ReadContext;
    var flags: seq<seq<bool>>, rest := [], r;
    NothingPrepended(ReadFlags(r, MAX_FLAPS));
    for c := 0 to MAX_FLAPS
      invariant |flags| == c
      invariant ReadFlags(r, MAX_FLAPS) == Prepended(flags, ReadFlags(rest, MAX_FLAPS - c))
    {
      PrependedStep(flags, rest, MAX_FLAPS - c);
      var one := DecodeContext(rest);
      match one {
        case None => return None;
        case Some((f, after)) =>
          flags, rest := flags + [f], after;
      }
    }
    result := Some((flags, rest));
    assert flags + [] == flags;
  }

  function Prepended(flags: seq<seq<bool>>, o: Option<(seq<seq<bool>>, seq<byte>)>): Option<(seq<seq<bool>>, seq<byte>)>
  {
    match o
    case None => None
    case Some((more, after)) => Some((flags + more, after))
  }

  lemma NothingPrepended(o: Option<(seq<seq<bool>>, seq<byte>)>)
    ensures Prepended([], o) == o
  {
    if o.Some? {
      assert [] + o.value.0 == o.value.0;
    }
  }

  lemma PrependedStep(flags: seq<seq<bool>>, rest: seq<byte>, contexts: nat)
    requires contexts > 0
    ensures Prepended(flags, ReadFlags(rest, contexts)) ==
            match ReadContext(rest)
            case None => None
            case Some((f, after)) => Prepended(flags + [f], ReadFlags(after, contexts - 1))
  {
    hide ReadContext;
    match ReadContext(rest)
    case None =>
    case Some((f, after)) =>
      match ReadFlags(after, contexts - 1)
      case None =>
      case Some((more, last)) =>
        assert flags + ([f] + more) == flags + [f] + more;
  }

  method DecodeContext(r: seq<byte>) returns (result: Option<(seq<bool>, seq<byte>)>)
    ensures result == ReadContext(r)
  {
    hide OpenBits, ReadVarUint32, DecodeBitStep;
    match ReadVarUint32(r)
    case None => return None;
    case Some((count, rest)) =>
      if count == 0 {
        return Some(([], rest));
      }
      var decoder := new RansBitDecoder();
      var ok, after := decoder.StartDecoding(rest);
      if !ok {
        return None;
      }
      ghost var p0, s := decoder.probZero, decoder.Value();
      var flags := [];
      for i := 0 to count
        invariant decoder.Valid() && !decoder.failed && decoder.probZero == p0 && |flags| == i
        invariant DecodeBits(s, p0, count).0 == flags + DecodeBits(decoder.Value(), p0, count - i).0
      {
        var bit := decoder.DecodeNextBit();
        assert flags + ([bit] + DecodeBits(decoder.Value(), p0, count - i - 1).0) == flags + [bit] + DecodeBits(decoder.Value(), p0, count - i - 1).0;
        flags := flags + [bit];
      }
      assert flags + [] == flags;
      result := Some((flags, after));
  }
}
