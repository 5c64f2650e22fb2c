/** The loops of texture coordinate prediction (mesh_prediction_texcoord.go). */
module TexCoding {
  import opened Bits
  import opened Corners
  import opened Wrapping
  import opened Prediction
  import opened Stream
  import opened Rans
  import opened RansBit
  import opened RansBitCoding
  import opened TexCoords

  /** intSqrt in 64-bit arithmetic: Newton's iteration never overflows, and the loop after it, which
      steps down while the square exceeds the value, never has anything to do. */
  method ComputeIntSqrt(value: nat) returns (r: nat)
    requires value < 0x1_0000_0000_0000_0000
    ensures r == IntSqrt(value)
  {
    hide FirstGuess, FloorSqrt;
    if value == 0 {
      assert FloorSqrt(0) == 0 by { SquareMono(1, FloorSqrt(0)); }
      return 0;
    }
    var sqrt, act: nat := 1, value;
    while act >= 2
      invariant sqrt * FirstGuess(act) == FirstGuess(value)
      decreases act
    {
      GuessStep(act);
      Regroup3(sqrt, 2, FirstGuess(act / 4));
      sqrt := sqrt * 2;
      act := act / 4;
    }
    GuessStep(act);
    GuessBounds(value);
    GuessSmall(FirstGuess(value), value);
    ghost var root, guess := FloorSqrt(value), FirstGuess(value);
    OneSquare(sqrt, act, guess);
    RootPositive(value);
    while true
      invariant 1 <= sqrt < 0x2_0000_0000 && value < 4 * (sqrt * sqrt)
      invariant sqrt == guess || (guess > root && sqrt >= root)
      decreases sqrt
    {
      NewtonStep(value, sqrt);
      NewtonFits(value, sqrt);
      var next := U64(sqrt + value / sqrt) / 2;
      if next >= sqrt {
        break;
      }
      NextSquare(value, root, next);
      sqrt := next;
    }
    SquareMono(sqrt, root);
    U64Small(sqrt * sqrt);
    assert U64(sqrt * sqrt) <= value;
    r := sqrt;
  }

  lemma Regroup3(a: nat, b: nat, c: nat)
    ensures a * b * c == a * (b * c)
  {
  }

  lemma U64Small(x: nat)
    requires x < 0x1_0000_0000_0000_0000
    ensures U64(x) == x
  {
  }

  lemma GuessSmall(g: nat, v: nat)
    requires g * g <= 2 * v && v < 0x1_0000_0000_0000_0000
    ensures g < 0x2_0000_0000
  {
    SquareMono(0x2_0000_0000, g);
  }

  lemma OneSquare(sqrt: nat, act: nat, guess: nat)
    requires sqrt * 1 == guess
    ensures sqrt == guess && 2 * sqrt * sqrt == 2 * (sqrt * sqrt) && (guess >= 1 ==> sqrt * sqrt >= 1)
  {
    if guess >= 1 {
      SquareMono(1, sqrt);
    }
  }

  lemma RootPositive(v: nat)
    requires v > 0
    ensures FloorSqrt(v) >= 1
  {
    hide FloorSqrt;
    SquareMono(FloorSqrt(v) + 1, 1);
  }

  lemma NextSquare(v: nat, root: nat, next: nat)
    requires v < (root + 1) * (root + 1) && 1 <= root <= next
    ensures v < 4 * (next * next)
  {
    SquareMono(root + 1, 2 * next);
    assert (2 * next) * (2 * next) == 4 * (next * next);
  }

  /** The sum in a Newton step stays below 2^64. */
  lemma NewtonFits(v: nat, s: nat)
    requires 1 <= s < 0x2_0000_0000 && v < 0x1_0000_0000_0000_0000 && v < 4 * (s * s)
    ensures 0 <= v / s && U64(s + v / s) == s + v / s
  {
    DivNonneg(v, s);
    if s == 1 {
      assert v < 4;
    } else {
      MulMono(2, s, 0x8000_0000_0000_0000);
      DivBelow(v, s, 0x8000_0000_0000_0000);
    }
  }

  // ---- the correction loops -------------------------------------------------------------------------

  /** The prediction of one entry: an error, a row, or two candidates. */
  method ComputePredictedValue(t: TexContext, id: nat, values: array<Row>) returns (plan: Plan)
    requires ValidTex(t) && Rows(values[..], 2) && id < values.Length
    ensures plan == PlanAt(t, id, values[..])
  {
    hide Candidates;
    if id >= |t.ctx.dataToCorner| || t.ctx.dataToCorner[id] < 0 {
      return Fail;
    }
    var corner := t.ctx.dataToCorner[id];
    RotateBelow(corner, |t.ctx.opposite| / 3);
    var next, prev := EntryAt(t.ctx, Next(corner)), EntryAt(t.ctx, Previous(corner));
    if prev < id && next < id {
      var nextUV, prevUV := Vec2(values[next][0], values[next][1]), Vec2(values[prev][0], values[prev][1]);
      if nextUV == prevUV {
        return Fixed(RowOf(prevUV));
      }
      var tipPos, nextPos, prevPos := Position(t, id), Position(t, next), Position(t, prev);
      if tipPos.None? || nextPos.None? || prevPos.None? {
        return Fail;
      }
      var candidates := ComputeCandidates(nextUV, prevUV, tipPos.value, nextPos.value, prevPos.value);
      match candidates {
        case Some((plus, minus)) => return Choice(plus, minus);
        case None =>
      }
    }
    var from := -1;
    if prev < id {
      from := prev;
    }
    if next < id {
      from := next;
    } else if from < 0 {
      if id == 0 {
        return Fixed([0, 0]);
      }
      from := id - 1;
    }
    plan := Fixed(values[from]);
  }

  method ComputeCandidates(nextUV: Vec2, prevUV: Vec2, tip: Vec3, next: Vec3, prev: Vec3) returns (o: Option<(Row, Row)>)
    ensures o == Candidates(nextUV, prevUV, tip, next, prev)
  {
    hide IntSqrt, Sub3, Norm3, Dot3, Div3, Scale3, Scale2, Add2, Sub2, Div2, RowOf, S64, Add3;
    var pn := Sub3(prev, next);
    var norm := Norm3(pn);
    if norm == 0 {
      return None;
    }
    var along := Dot3(Sub3(tip, next), pn);
    var pnUV := Sub2(prevUV, nextUV);
    var divisor := S64(norm);
    var xUV := Add2(Scale2(nextUV, divisor), Scale2(pnUV, along));
    var xPos := Add3(next, Div3(Scale3(pn, along), divisor));
    var height := ComputeIntSqrt(U64(Norm3(Sub3(tip, xPos)) * norm));
    var cxUV := Scale2(Vec2(pnUV.y, S64(-pnUV.x)), S64(height));
    o := Some((RowOf(Div2(Add2(xUV, cxUV), divisor)), RowOf(Div2(Sub2(xUV, cxUV), divisor))));
  }

  /** Corrections from the last entry to the first; picks stand for the comparisons of distances. */
  method ComputeTexCorrections(t: TexContext, transform: Wrap, ghost b: Bounds, values: array<Row>, picks: seq<bool>)
    returns (ok: bool, corrections: array<Row>, orientations: seq<bool>)
    requires ValidTex(t) && transform.Is(b) && transform.numComponents == 2 && Rows(values[..], 2) && |picks| == values.Length
    modifies transform.clampedScratch
    ensures fresh(corrections) && ok == Sound(t, values[..])
    ensures ok ==> corrections[..] == TexCorrections(t, b, values[..], picks) && orientations == Orientations(t, values[..], picks, 0)
  {
    hide PlanAt, CorrectRow, ValidTex;
    corrections := new Row[values.Length](_ => []);
    orientations := [];
    var id: int := values.Length - 1;
    while id >= 0
      invariant -1 <= id < values.Length && transform.Is(b) && transform.numComponents == 2
      invariant forall k :: id < k < values.Length ==> !PlanAt(t, k, values[..]).Fail?
      invariant forall k :: id < k < values.Length ==> corrections[k] == TexCorrections(t, b, values[..], picks)[k]
      invariant orientations == Orientations(t, values[..], picks, id + 1)
    {
      var plan := ComputePredictedValue(t, id, values);
      if plan.Fail? {
        return false, corrections, orientations;
      }
      var predicted := Picked(plan, picks[id]);
      if plan.Choice? {
        orientations := orientations + [picks[id]];
      } else {
        assert orientations + [] == orientations;
      }
      corrections[id] := transform.ComputeCorrection(values[id], predicted, b);
      id := id - 1;
    }
    ok := true;
  }

  method RestoreTexValues(t: TexContext, transform: Wrap, ghost b: Bounds, corrections: seq<Row>, orientations: seq<bool>)
    returns (ok: bool, values: array<Row>, left: seq<bool>)
    requires ValidTex(t) && transform.Is(b) && transform.numComponents == 2 && Rows(corrections, 2)
    modifies transform.clampedScratch
    ensures fresh(values) && ok == TexRebuilt(t, b, corrections, orientations).Some?
    ensures ok ==> (values[..], left) == TexRebuilt(t, b, corrections, orientations).value
  {
    hide PlanAt, RestoreRow, ValidTex, TexStep;
    values := new Row[|corrections|](_ => [0, 0]);
    left := orientations;
    assert corrections[..|corrections|] == corrections;
    for id := 0 to |corrections|
      invariant fresh(values) && values.Length == |corrections| && Rows(values[..], 2)
      invariant transform.Is(b) && transform.numComponents == 2
      invariant TexRebuilt(t, b, corrections[..id], orientations) == Some((values[..id], left))
    {
      assert corrections[..id + 1][..id] == corrections[..id];
      PlanLooksBack(t, id, values[..id], values[..]);
      var plan := ComputePredictedValue(t, id, values);
      TexStepIs(t, b, corrections[id], values[..id], left);
      if plan.Fail? || (plan.Choice? && |left| == 0) {
        RebuiltFails(t, b, corrections, orientations, id + 1);
        return false, values, left;
      }
      var pick := false;
      if plan.Choice? {
        pick := left[|left| - 1];
        left := left[..|left| - 1];
      }
      ghost var before := values[..id];
      var row := transform.ComputeOriginalValue(Picked(plan, pick), corrections[id], b);
      values[id] := row;
      assert values[..id + 1] == before + [row];
    }
    assert values[..|corrections|] == values[..] && corrections[..|corrections|] == corrections;
    ok := true;
  }

  lemma TexStepIs(t: TexContext, b: Bounds, correction: Row, before: seq<Row>, left: seq<bool>)
    requires ValidTex(t) && Rows(before, 2) && |correction| == 2
    ensures var plan := PlanAt(t, |before|, before);
            TexStep(t, b, correction, before, left) ==
            if plan.Fail? || (plan.Choice? && left == []) then None
            else if plan.Choice? then
              Some((before + [RestoreRow(b, Picked(plan, left[|left| - 1]), correction)], left[..|left| - 1]))
            else
              Some((before + [RestoreRow(b, Picked(plan, false), correction)], left))
  {
  }

  lemma {:induction false} RebuiltFails(t: TexContext, b: Bounds, corrections: seq<Row>, orientations: seq<bool>, k: nat)
    requires ValidTex(t) && Rows(corrections, 2) && k <= |corrections| && TexRebuilt(t, b, corrections[..k], orientations).None?
    ensures TexRebuilt(t, b, corrections, orientations).None?
    decreases |corrections| - k
  {
    hide TexStep, ValidTex;
    if k == |corrections| {
      assert corrections[..k] == corrections;
    } else {
      assert corrections[..k + 1][..k] == corrections[..k];
      RebuiltFails(t, b, corrections, orientations, k + 1);
    }
  }

  // ---- orientation bytes --------------------------------------------------------------------------------

  method EncodeOrientations(orientations: seq<bool>, zeroProb: nat) returns (ok: bool, out: seq<byte>)
    requires ZeroProb(zeroProb)
    ensures ok <==> |orientations| < 0x8000_0000
    ensures ok ==> out == OrientationBytes(orientations, zeroProb)
  {
    hide BitStream, LeBytes;
    if |orientations| >= 0x8000_0000 {
      return false, [];
    }
    var encoder := new RansBitEncoder();
    encoder.StartEncoding();
    var last := true;
    for i := 0 to |orientations|
      invariant encoder.Valid() && !encoder.failed
      invariant encoder.Contents() + Repeats(orientations[i..], last) == Repeats(orientations, true)
    {
      assert orientations[i..][1..] == orientations[i + 1..];
      ghost var before := encoder.Contents();
      encoder.EncodeBit(orientations[i] == last);
      assert before + ([orientations[i] == last] + Repeats(orientations[i + 1..], orientations[i])) ==
             encoder.Contents() + Repeats(orientations[i + 1..], orientations[i]);
      last := orientations[i];
    }
    assert encoder.Contents() + [] == encoder.Contents();
    var done, stream := encoder.EndEncoding(zeroProb);
    ok, out := true, LeBytes(U32(|orientations|), 4) + stream;
  }

  lemma OneUnrepeated(orientations: seq<bool>, s: State, p0: nat, remaining: nat, last: bool)
    requires p0 <= 255
    ensures var (bit, s1) := DecodeBitStep(s, p0);
            var now := if bit then last else !last;
            orientations + Unrepeated(DecodeBits(s, p0, remaining + 1).0, last) ==
            orientations + [now] + Unrepeated(DecodeBits(s1, p0, remaining).0, now)
  {
    hide DecodeBitStep;
    var (bit, s1) := DecodeBitStep(s, p0);
    var bits, more := DecodeBits(s, p0, remaining + 1).0, DecodeBits(s1, p0, remaining).0;
    assert bits == [bit] + more && bits[1..] == more;
  }

  lemma NoBits(s: State, p0: nat, last: bool)
    requires p0 <= 255
    ensures Unrepeated(DecodeBits(s, p0, 0).0, last) == []
  {
  }

  method DecodeOrientations(r: seq<byte>) returns (result: Option<(seq<bool>, seq<byte>)>)
    ensures result == ReadOrientations(r)
  {
    hide OpenBits, ReadUint32, DecodeBitStep, DecodeBits;
    match ReadUint32(r)
    case None => return None;
    case Some((count, rest)) =>
      if count >= 0x8000_0000 {
        return None;
      }
      var decoder := new RansBitDecoder();
      var ok, after := decoder.StartDecoding(rest);
      if !ok {
        return None;
      }
      ghost var p0, s := decoder.probZero, decoder.Value();
      var orientations, last := [], true;
      for i := 0 to count
        invariant decoder.Valid() && !decoder.failed && decoder.probZero == p0
        invariant Unrepeated(DecodeBits(s, p0, count).0, true) == orientations + Unrepeated(DecodeBits(decoder.Value(), p0, count - i).0, last)
      {
        ghost var now, remaining: nat := decoder.Value(), count - i - 1;
        var bit := decoder.DecodeNextBit();
        OneUnrepeated(orientations, now, p0, remaining, last);
        if !bit {
          last := !last;
        }
        orientations := orientations + [last];
      }
      NoBits(decoder.Value(), p0, last);
      assert orientations + [] == orientations;
      result := Some((orientations, after));
  }
}
