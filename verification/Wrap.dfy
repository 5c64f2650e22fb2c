/** The wrap transform (internal/transform/wrap.go): corrections are kept in a range as wide as
    the values', and restored by wrapping around it, in 32-bit arithmetic throughout. */
module Wrapping {
  import opened Bits

  /** The int32 that a number wraps around to. */
  function S32(x: int): (r: int)
    ensures -0x8000_0000 <= r < 0x8000_0000
    ensures -0x8000_0000 <= x < 0x8000_0000 ==> r == x
  {
    (x + 0x8000_0000) % 0x1_0000_0000 - 0x8000_0000
  }

  predicate Int32(x: int)
  {
    -0x8000_0000 <= x < 0x8000_0000
  }

  /** Value bounds that the transform accepts. */
  datatype Bounds = Bounds(min: int, max: int)

  predicate ValidBounds(b: Bounds)
  {
    Int32(b.min) && Int32(b.max) && 0 <= b.max - b.min < 0x7fff_ffff
  }

  function MaxDif(b: Bounds): int
  {
    1 + b.max - b.min
  }

  function MaxCorrection(b: Bounds): int
  {
    MaxDif(b) / 2 - if MaxDif(b) % 2 == 0 then 1 else 0
  }

  function MinCorrection(b: Bounds): int
  {
    -(MaxDif(b) / 2)
  }

  predicate Inside(b: Bounds, v: int)
  {
    b.min <= v <= b.max
  }

  function Clamp(b: Bounds, v: int): int
  {
    if v > b.max then b.max else if v < b.min then b.min else v
  }

  /** One component of ComputeCorrection. */
  function Correct(b: Bounds, original: int, predicted: int): int
  {
    var d := S32(original - Clamp(b, predicted));
    if d < MinCorrection(b) then S32(d + MaxDif(b)) else if d > MaxCorrection(b) then S32(d - MaxDif(b)) else d
  }

  /** One component of ComputeOriginalValue. */
  function Restore(b: Bounds, predicted: int, correction: int): int
  {
    var v := S32(Clamp(b, predicted) + correction);
    if v > b.max then S32(v - MaxDif(b)) else if v < b.min then S32(v + MaxDif(b)) else v
  }

  /** No correction leads outside the 32-bit range from any value in bounds. */
  predicate Fits(b: Bounds)
  {
    b.max + MaxCorrection(b) < 0x8000_0000 && b.min + MinCorrection(b) >= -0x8000_0000
  }

  /** Corrections lie between the bounds for corrections and identify the value. */
  lemma CorrectionRange(b: Bounds, original: int, predicted: int)
    requires ValidBounds(b) && Inside(b, original)
    ensures MinCorrection(b) <= Correct(b, original, predicted) <= MaxCorrection(b)
    ensures var k := Clamp(b, predicted) + Correct(b, original, predicted) - original;
            k == 0 || k == MaxDif(b) || k == -MaxDif(b)
  {
    assert -MaxDif(b) < original - Clamp(b, predicted) < MaxDif(b);
  }

  lemma Restored(b: Bounds, original: int, predicted: int)
    requires ValidBounds(b) && Inside(b, original) && Fits(b)
    ensures Restore(b, predicted, Correct(b, original, predicted)) == original
  {
    CorrectionRange(b, original, predicted);
  }

  /** The value that is lost when an upper correction overflows. */
  lemma LostAbove(b: Bounds)
    requires ValidBounds(b) && b.max + MaxCorrection(b) >= 0x8000_0000
    ensures Inside(b, b.max + MaxCorrection(b) - MaxDif(b))
    ensures Restore(b, b.max, Correct(b, b.max + MaxCorrection(b) - MaxDif(b), b.max)) != b.max + MaxCorrection(b) - MaxDif(b)
  {
    var original := b.max + MaxCorrection(b) - MaxDif(b);
    assert Correct(b, original, b.max) == MaxCorrection(b);
    assert S32(b.max + MaxCorrection(b)) == b.max + MaxCorrection(b) - 0x1_0000_0000;
  }

  lemma LostBelow(b: Bounds)
    requires ValidBounds(b) && b.min + MinCorrection(b) < -0x8000_0000
    ensures Inside(b, b.min + MinCorrection(b) + MaxDif(b))
    ensures Restore(b, b.min, Correct(b, b.min + MinCorrection(b) + MaxDif(b), b.min)) != b.min + MinCorrection(b) + MaxDif(b)
  {
    var original := b.min + MinCorrection(b) + MaxDif(b);
    var d := original - b.min;
    assert MaxDif(b) > 1;
    if MaxDif(b) % 2 == 0 {
      assert d == MaxDif(b) / 2 > MaxCorrection(b);
    } else {
      assert d == MaxDif(b) / 2 + 1 > MaxCorrection(b);
    }
    assert Correct(b, original, b.min) == MinCorrection(b);
    assert S32(b.min + MinCorrection(b)) == b.min + MinCorrection(b) + 0x1_0000_0000;
  }

  /** Wrapping loses nothing for every value in bounds and every prediction, exactly when no
      correction leaves the 32-bit range. */
  lemma WrapIsLossless(b: Bounds)
    requires ValidBounds(b)
    ensures Fits(b) <==>
              forall original, predicted {:trigger Correct(b, original, predicted)} :: Inside(b, original) && Int32(predicted) ==>
                Restore(b, predicted, Correct(b, original, predicted)) == original
  {
    hide Correct, Restore;
    if Fits(b) {
      forall original, predicted | Inside(b, original) && Int32(predicted)
        ensures Restore(b, predicted, Correct(b, original, predicted)) == original
      {
        Restored(b, original, predicted);
      }
    } else if b.max + MaxCorrection(b) >= 0x8000_0000 {
      LostAbove(b);
    } else {
      LostBelow(b);
    }
  }

  /** The transform accepts bounds that lose values. */
  lemma LossyBounds(b: Bounds)
    requires b == Bounds(0, 0x7fff_fffe)
    ensures ValidBounds(b) && !Fits(b) && Inside(b, 0x3fff_fffe)
    ensures Restore(b, b.max, Correct(b, 0x3fff_fffe, b.max)) != 0x3fff_fffe
  {
    hide Correct, Restore;
    assert MaxDif(b) == 0x7fff_ffff && MaxCorrection(b) == 0x3fff_ffff;
    LostAbove(b);
  }

  // ---- rows -----------------------------------------------------------------------------------

  type Row = seq<int>

  function CorrectRow(b: Bounds, original: Row, predicted: Row): (r: Row)
    requires |original| == |predicted|
    ensures |r| == |original|
    ensures forall i :: 0 <= i < |r| ==> r[i] == Correct(b, original[i], predicted[i])
  {
    seq(|original|, i requires 0 <= i < |original| => Correct(b, original[i], predicted[i]))
  }

  function RestoreRow(b: Bounds, predicted: Row, correction: Row): (r: Row)
    requires |predicted| == |correction|
    ensures |r| == |predicted|
    ensures forall i :: 0 <= i < |r| ==> r[i] == Restore(b, predicted[i], correction[i])
  {
    seq(|predicted|, i requires 0 <= i < |predicted| => Restore(b, predicted[i], correction[i]))
  }

  predicate RowInside(b: Bounds, row: Row)
  {
    forall i :: 0 <= i < |row| ==> Inside(b, row[i])
  }

  lemma RowRestored(b: Bounds, original: Row, predicted: Row)
    requires ValidBounds(b) && Fits(b) && |original| == |predicted| && RowInside(b, original)
    ensures RestoreRow(b, predicted, CorrectRow(b, original, predicted)) == original
  {
    hide Correct, Restore;
    forall i | 0 <= i < |original|
      ensures Restore(b, predicted[i], Correct(b, original[i], predicted[i])) == original[i]
    {
      Restored(b, original[i], predicted[i]);
    }
  }

  // ---- the transform object ---------------------------------------------------------------------

  class Wrap {
    var numComponents: nat
    var minValue: int
    var maxValue: int
    var maxDif: int
    var maxCorrection: int
    var minCorrection: int
    var clampedScratch: array<int>

    ghost predicate Is(b: Bounds)
      reads this
    {
      ValidBounds(b) && minValue == b.min && maxValue == b.max && maxDif == MaxDif(b) && maxCorrection == MaxCorrection(b) &&
      minCorrection == MinCorrection(b) && clampedScratch.Length >= numComponents
    }

    constructor ()
      ensures fresh(clampedScratch) && numComponents == 0
    {
      numComponents, minValue, maxValue, maxDif, maxCorrection, minCorrection := 0, 0, 0, 0, 0, 0;
      clampedScratch := new int[16](_ => 0);
    }

    method Init(numComponents: nat)
      modifies this
      ensures this.numComponents == numComponents && clampedScratch.Length >= numComponents
      ensures clampedScratch == old(clampedScratch) || fresh(clampedScratch)
      ensures minValue == old(minValue) && maxValue == old(maxValue)
    {
      this.numComponents := numComponents;
      if clampedScratch.Length < numComponents {
        clampedScratch := new int[numComponents](_ => 0);
      }
    }

    /** Derives the other fields; false when the range is too wide. */
    method SetBounds(min: int, max: int) returns (ok: bool)
      requires Int32(min) && Int32(max) && clampedScratch.Length >= numComponents
      modifies this
      ensures ok <==> ValidBounds(Bounds(min, max))
      ensures ok ==> Is(Bounds(min, max))
      ensures clampedScratch == old(clampedScratch) && numComponents == old(numComponents)
    {
      minValue, maxValue := min, max;
      var dif := max - min;
      if dif < 0 || dif >= 0x7fff_ffff {
        return false;
      }
      maxDif := 1 + dif;
      maxCorrection := maxDif / 2;
      minCorrection := -maxCorrection;
      if maxDif % 2 == 0 {
        maxCorrection := maxCorrection - 1;
      }
      ok := true;
    }

    /** The tightest bounds of the values; false when they are too far apart. */
    method InitFromValues(values: seq<int>, numComponents: nat) returns (ok: bool, ghost b: Bounds)
      requires forall i :: 0 <= i < |values| ==> Int32(values[i])
      modifies this
      ensures this.numComponents == numComponents && (clampedScratch == old(clampedScratch) || fresh(clampedScratch))
      ensures values == [] ==> ok
      ensures ok && values != [] ==> Is(b) && RowInside(b, values) && b.min in values && b.max in values
      ensures !ok ==> exists i, j :: 0 <= i < |values| && 0 <= j < |values| && values[i] - values[j] >= 0x7fff_ffff
    {
      Init(numComponents);
      b := Bounds(0, 0);
      if values == [] {
        return true, b;
      }
      var min, max := values[0], values[0];
      for k := 1 to |values|
        invariant min in values[..k] && max in values[..k] && min <= max
        invariant forall i :: 0 <= i < k ==> min <= values[i] <= max
      {
        assert values[..k + 1] == values[..k] + [values[k]];
        if values[k] < min {
          min := values[k];
        } else if values[k] > max {
          max := values[k];
        }
      }
      assert values[..|values|] == values;
      b := Bounds(min, max);
      ok := SetBounds(min, max);
      if !ok {
        var i :| 0 <= i < |values| && values[i] == max;
        var j :| 0 <= j < |values| && values[j] == min;
        assert values[i] - values[j] >= 0x7fff_ffff;
      }
    }

    method ClampPredicted(predicted: seq<int>, ghost b: Bounds)
      requires Is(b) && |predicted| == numComponents
      modifies clampedScratch
      ensures forall i :: 0 <= i < numComponents ==> clampedScratch[i] == Clamp(b, predicted[i])
    {
      for i := 0 to numComponents
        invariant forall k :: 0 <= k < i ==> clampedScratch[k] == Clamp(b, predicted[k])
      {
        clampedScratch[i] := if predicted[i] > maxValue then maxValue else if predicted[i] < minValue then minValue else predicted[i];
      }
    }

    method ComputeCorrection(original: seq<int>, predicted: seq<int>, ghost b: Bounds) returns (out: seq<int>)
      requires Is(b) && |original| == |predicted| == numComponents
      modifies clampedScratch
      ensures out == CorrectRow(b, original, predicted)
    {
      ClampPredicted(predicted, b);
      out := [];
      for i := 0 to numComponents
        invariant |out| == i && forall k :: 0 <= k < i ==> out[k] == Correct(b, original[k], predicted[k])
      {
        var d := S32(original[i] - clampedScratch[i]);
        if d < minCorrection {
          d := S32(d + maxDif);
        } else if d > maxCorrection {
          d := S32(d - maxDif);
        }
        out := out + [d];
      }
    }

    method ComputeOriginalValue(predicted: seq<int>, correction: seq<int>, ghost b: Bounds) returns (out: seq<int>)
      requires Is(b) && |correction| == |predicted| == numComponents
      modifies clampedScratch
      ensures out == RestoreRow(b, predicted, correction)
    {
      ClampPredicted(predicted, b);
      out := [];
      for i := 0 to numComponents
        invariant |out| == i && forall k :: 0 <= k < i ==> out[k] == Restore(b, predicted[k], correction[k])
      {
        var v := S32(clampedScratch[i] + correction[i]);
        if v > maxValue {
          v := S32(v - maxDif);
        } else if v < minValue {
          v := S32(v + maxDif);
        }
        out := out + [v];
      }
    }
  }
}
