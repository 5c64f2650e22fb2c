/** The prediction transform for normals (internal/transform/normal.go) in its own steps: 32-bit
    arithmetic, points turned in place, results written to output slices. */
module NormalTransform {
  import opened Bits
  import opened Wrapping
  import opened Rans
  import opened Octahedra

  /** q quantisation bits give 2^q - 1 values around the centre 2^(q-1) - 1. */
  lemma CenterOfBits(q: nat)
    requires 2 <= q <= 30
    ensures Pow2(q) % 2 == 0 && Center((Pow2(q) - 2) / 2) && Pow2(q) <= 0x4000_0000
  {
    hide Pow2;
    Twice(1);
    Twice(q);
    Pow2Mono(1, q - 1);
    Pow2Mono(q - 1, 29);
    SmallPowers();
  }

  lemma Twice(q: nat)
    requires q >= 1
    ensures Pow2(q) == 2 * Pow2(q - 1)
  {
  }

  lemma SmallPowers()
    ensures Pow2(1) == 2 && Pow2(29) == 0x2000_0000
  {
    assert Pow2(5) == 32;
    hide Pow2;
    Pow2Add(5, 24);
    Pow2Of32();
    Twice(1);
    Pow2Mono(0, 0);
  }

  lemma LengthOfFull(q: nat)
    requires q >= 1
    ensures Pow2(q) >= 2 && BitLength(Pow2(q) - 1) == q
  {
    Pow2Mono(1, q);
    assert Pow2(1) == 2;
    var n := BitLength(Pow2(q) - 1);
    BitLengthBound(Pow2(q) - 1, q);
    BitLengthFits(Pow2(q) - 1);
    if n < q {
      Pow2Mono(n, q - 1);
    }
  }

  lemma Wraps(x: int, k: int)
    ensures U32(x + k * 0x1_0000_0000) == U32(x) && S32(x + k * 0x1_0000_0000) == S32(x)
  {
    var y := x + 0x8000_0000;
    DivModUnique(x + k * 0x1_0000_0000, 0x1_0000_0000, x / 0x1_0000_0000 + k, x % 0x1_0000_0000);
    DivModUnique(y + k * 0x1_0000_0000, 0x1_0000_0000, y / 0x1_0000_0000 + k, y % 0x1_0000_0000);
  }

  lemma UnsignedIs(a: int)
    ensures U32(a) == a + -(a / 0x1_0000_0000) * 0x1_0000_0000
  {
  }

  lemma SignedIs(a: int)
    ensures S32(a) == a + -((a + 0x8000_0000) / 0x1_0000_0000) * 0x1_0000_0000
  {
  }

  /** Unsigned steps compute modulo 2^32. */
  lemma UnsignedStep(a: int, b: int)
    ensures U32(U32(a) + U32(b)) == U32(a + b)
    ensures U32(U32(a) + U32(a) - U32(b)) == U32(a + a - b)
    ensures U32(-S32(U32(a))) == U32(-a)
    ensures S32(U32(a)) == S32(a)
  {
    hide U32, S32;
    UnsignedIs(a);
    UnsignedIs(b);
    SignedIs(U32(a));
    var i, j := -(a / 0x1_0000_0000), -(b / 0x1_0000_0000);
    var k := -((U32(a) + 0x8000_0000) / 0x1_0000_0000);
    Wraps(a + b, i + j);
    Wraps(a + a - b, i + i - j);
    Wraps(-a, -i - k);
    Wraps(a, i);
  }

  /** Doubling, taking off one corner and adding another, with or without a change of sign. */
  lemma UnsignedTurn(x: int, a: int, b: int)
    ensures S32(U32(U32(-S32(U32(U32(x) + U32(x) - U32(a)))) + U32(b))) == S32(a - x - x + b)
    ensures S32(U32(U32(U32(x) + U32(x) - U32(a)) + U32(b))) == S32(x + x - a + b)
  {
    hide U32, S32;
    var y := x + x - a;
    UnsignedStep(x, a);
    UnsignedStep(y, b);
    UnsignedStep(-y, b);
    UnsignedStep(y + b, 0);
    UnsignedStep(-y + b, 0);
  }

  lemma Unwrapped(x: int)
    requires Int32(x)
    ensures S32(x) == x
  {
  }

  lemma HalfSmall(v: int)
    requires Abs(v) < 0x4000_0000
    ensures TruncDiv(S32(2 * v), 2) == v
  {
  }

  lemma HalfFits(x: int)
    ensures Int32(TruncDiv(S32(x), 2))
  {
  }

  /** A rotation in 32-bit arithmetic. */
  function Turned(p: Point, k: nat): (r: Point)
    ensures Int32(r.s) && Int32(r.t)
  {
    Point(S32(Rotated(p, k).s), S32(Rotated(p, k).t))
  }

  lemma RotatedNear(c: int, p: Point, k: nat)
    requires Center(c) && Near(c, p)
    ensures Near(c, Rotated(p, k)) && Turned(p, k) == Rotated(p, k)
  {
  }

  lemma SumNear(c: int, from: int, correction: int)
    requires Center(c) && Abs(from) <= c && 0 <= correction < 2 * c + 1
    ensures Abs(ModMax(c, S32(from + correction))) <= c
  {
  }

  lemma NotTurned(p: Point)
    requires Int32(p.s) && Int32(p.t)
    ensures Turned(p, 0) == p
  {
  }

  // ---- any 32-bit points --------------------------------------------------------------------------

  /** The absolute values and their sum wrap around too. */
  predicate InDiamond32(c: int, p: Point)
  {
    S32(S32(Abs(p.s)) + S32(Abs(p.t))) <= c
  }

  /** Coordinates are doubled, wrapped and halved. */
  function Halved(x: int): (r: int)
    ensures Int32(r)
  {
    HalfFits(2 * x);
    TruncDiv(S32(2 * x), 2)
  }

  function Inverted32(c: int, p: Point): (r: Point)
    ensures Int32(r.s) && Int32(r.t)
  {
    Point(Halved(Inverted(c, p).s), Halved(Inverted(c, p).t))
  }

  function Centered32(c: int, p: Point): (r: Point)
    ensures Int32(r.s) && Int32(r.t)
  {
    Point(S32(p.s - c), S32(p.t - c))
  }

  /** The rotation that a prediction asks for. */
  function Turns(c: int, predicted: Point): (k: nat)
    ensures k < 4
  {
    RotationCount(if InDiamond32(c, predicted) then predicted else Inverted32(c, predicted))
  }

  function Forward32(c: int, predicted: Point, p: Point): (r: Point)
    ensures Int32(r.s) && Int32(r.t)
  {
    Turned(if InDiamond32(c, predicted) then p else Inverted32(c, p), Turns(c, predicted))
  }

  function Backward32(c: int, predicted: Point, p: Point): (r: Point)
    ensures Int32(r.s) && Int32(r.t)
  {
    var turned := Turned(p, (4 - Turns(c, predicted)) % 4);
    if InDiamond32(c, predicted) then turned else Inverted32(c, turned)
  }

  /** The correction of any original against any prediction. */
  function Correction32(c: int, original: Point, predicted: Point): Point
  {
    var p := Centered32(c, predicted);
    var from, to := Forward32(c, p, p), Forward32(c, p, Centered32(c, original));
    Point(MakePositive(c, S32(to.s - from.s)), MakePositive(c, S32(to.t - from.t)))
  }

  /** What any correction makes of any prediction. */
  function Original32(c: int, predicted: Point, correction: Point): (r: Point)
    ensures Int32(r.s) && Int32(r.t)
  {
    var p := Centered32(c, predicted);
    var from := Forward32(c, p, p);
    var back := Backward32(c, p, Point(ModMax(c, S32(from.s + correction.s)), ModMax(c, S32(from.t + correction.t))));
    Point(S32(back.s + c), S32(back.t + c))
  }

  /** Near the centre nothing is rounded or lost. */
  lemma InvertedSame(c: int, p: Point)
    requires Center(c) && Near(c, p)
    ensures InDiamond32(c, p) <==> InDiamond(c, p)
    ensures Inverted32(c, p) == Inverted(c, p) && Near(c, Inverted(c, p))
  {
    hide Inverted, TruncDiv;
    InvertedMirrors(c, p);
    HalfSmall(Inverted(c, p).s);
    HalfSmall(Inverted(c, p).t);
  }

  lemma ForwardSame(c: int, predicted: Point, p: Point)
    requires Center(c) && Near(c, predicted) && Near(c, p)
    ensures Forward32(c, predicted, p) == Forward(c, predicted, p) && Near(c, Forward(c, predicted, p))
  {
    hide Inverted, Inverted32, InDiamond, InDiamond32, RotationCount, Rotated, Turned, Near;
    InvertedSame(c, predicted);
    InvertedSame(c, p);
    RotatedNear(c, if InDiamond(c, predicted) then p else Inverted(c, p), Turns(c, predicted));
  }

  lemma BackwardSame(c: int, predicted: Point, p: Point)
    requires Center(c) && Near(c, predicted) && Near(c, p)
    ensures Backward32(c, predicted, p) == Backward(c, predicted, p) && Near(c, Backward(c, predicted, p))
  {
    hide Inverted, Inverted32, InDiamond, InDiamond32, RotationCount, Rotated, Turned, Near;
    InvertedSame(c, predicted);
    var k := (4 - Turns(c, predicted)) % 4;
    RotatedNear(c, p, k);
    InvertedSame(c, Rotated(p, k));
  }

  lemma CenteredSame(c: int, p: Point)
    requires Center(c) && OnSquare(c, p)
    ensures Centered32(c, p) == Centered(c, p) && Near(c, Centered(c, p))
  {
  }

  lemma BackOnSquare(c: int, p: Point)
    requires Center(c) && Near(c, p)
    ensures S32(p.s + c) == p.s + c && S32(p.t + c) == p.t + c && OnSquare(c, Point(p.s + c, p.t + c))
  {
  }

  lemma PositiveSame(c: int, to: int, from: int)
    requires Center(c) && Abs(to) <= c && Abs(from) <= c
    ensures S32(to - from) == to - from
  {
  }

  /** On the square the 32-bit arithmetic is exact. */
  lemma CorrectionExact(c: int, original: Point, predicted: Point)
    requires Center(c) && OnSquare(c, original) && OnSquare(c, predicted)
    ensures Correction32(c, original, predicted) == Correction(c, original, predicted)
  {
    hide Forward, Forward32, S32, Centered, Centered32, MakePositive, OnSquare;
    CenteredSame(c, original);
    CenteredSame(c, predicted);
    var p, o := Centered(c, predicted), Centered(c, original);
    ForwardSame(c, p, p);
    ForwardSame(c, p, o);
    PositiveSame(c, Forward(c, p, o).s, Forward(c, p, p).s);
    PositiveSame(c, Forward(c, p, o).t, Forward(c, p, p).t);
  }

  /** And for corrections below the modulus so is the way back. */
  lemma OriginalExact(c: int, predicted: Point, correction: Point)
    requires Center(c) && OnSquare(c, predicted) && 0 <= correction.s < 2 * c + 1 && 0 <= correction.t < 2 * c + 1
    ensures Original32(c, predicted, correction) == Original(c, predicted, correction)
    ensures OnSquare(c, Original(c, predicted, correction))
  {
    hide Forward, Forward32, Backward, Backward32, ModMax, S32, Centered, Centered32, OnSquare;
    CenteredSame(c, predicted);
    var p := Centered(c, predicted);
    ForwardSame(c, p, p);
    var from := Forward(c, p, p);
    SumNear(c, from.s, correction.s);
    SumNear(c, from.t, correction.t);
    var to := Point(ModMax(c, S32(from.s + correction.s)), ModMax(c, S32(from.t + correction.t)));
    BackwardSame(c, p, to);
    BackOnSquare(c, Backward(c, p, to));
  }

  class NormalOctahedron {
    var quantizationBits: int
    var maxQuantizedValue: int
    var maxValue: int
    var centerValue: int

    ghost predicate Valid()
      reads this
    {
      2 <= quantizationBits <= 30 && maxQuantizedValue == Pow2(quantizationBits) - 1 && maxValue == maxQuantizedValue - 1 &&
      centerValue == maxValue / 2 && Center(centerValue) && maxQuantizedValue == 2 * centerValue + 1
    }

    constructor (q: int)
      requires 2 <= q <= 30
      ensures Valid() && quantizationBits == q
    {
      new;
      var ok := SetQuantizationBits(q);
    }

    method SetQuantizationBits(q: int) returns (ok: bool)
      modifies this
      ensures ok <==> 2 <= q <= 30
      ensures if ok then Valid() && quantizationBits == q else unchanged(this)
    {
      if q < 2 || q > 30 {
        return false;
      }
      CenterOfBits(q);
      quantizationBits := q;
      maxQuantizedValue := Pow2(q) - 1;
      maxValue := maxQuantizedValue - 1;
      centerValue := maxValue / 2;
      ok := true;
    }

    /** Takes over a transmitted modulus; 2^q - 1 is understood exactly, another odd number
        silently becomes the next such value. */
    method SetMaxQuantizedValue(value: int) returns (ok: bool)
      requires Int32(value)
      modifies this
      ensures ok <==> value > 0 && value % 2 == 1 && 2 <= BitLength(value) <= 30
      ensures ok ==> Valid() && maxQuantizedValue >= value && quantizationBits == BitLength(value)
      ensures forall q: nat :: 2 <= q <= 30 && value == Pow2(q) - 1 ==> ok && quantizationBits == q
    {
      forall q: nat | 2 <= q <= 30 && value == Pow2(q) - 1
        ensures value > 0 && value % 2 == 1 && BitLength(value) == q
      {
        CenterOfBits(q);
        LengthOfFull(q);
      }
      if value <= 0 || value % 2 == 0 {
        return false;
      }
      BitLengthFits(value);
      ok := SetQuantizationBits(BitLength(value));
    }

    method CanonicalizeOctahedralCoords(s: int, t: int) returns (s1: int, t1: int)
      requires Valid()
      ensures Point(s1, t1) == Canonical(centerValue, Point(s, t))
    {
      if (s == 0 && t == 0) || (s == 0 && t == maxValue) || (s == maxValue && t == 0) {
        return maxValue, maxValue;
      }
      if s == 0 && t > centerValue {
        return s, centerValue - (t - centerValue);
      }
      if s == maxValue && t < centerValue {
        return s, centerValue + (centerValue - t);
      }
      if t == maxValue && s < centerValue {
        return centerValue + (centerValue - s), t;
      }
      if t == 0 && s > centerValue {
        return centerValue - (s - centerValue), t;
      }
      return s, t;
    }

    /** Turns a point in unsigned arithmetic. */
    method InvertDiamond(s: int, t: int) returns (s1: int, t1: int)
      requires Valid() && Int32(s) && Int32(t)
      ensures Point(s1, t1) == Inverted32(centerValue, Point(s, t))
    {
      hide U32, S32, TruncDiv, Pow2, Abs;
      var signS, signT := 0, 0;
      if s >= 0 && t >= 0 {
        signS, signT := 1, 1;
      } else if s <= 0 && t <= 0 {
        signS, signT := -1, -1;
      } else {
        signS := if s > 0 then 1 else -1;
        signT := if t > 0 then 1 else -1;
      }
      var a, b := signS * centerValue, signT * centerValue;
      var cs, ct := U32(a), U32(b);
      var us: int, ut: int := U32(s), U32(t);
      us, ut := U32(us + us - cs), U32(ut + ut - ct);
      if signS * signT >= 0 {
        var temp := us;
        us := U32(-S32(ut));
        ut := U32(-S32(temp));
      } else {
        us, ut := ut, us;
      }
      us, ut := U32(us + cs), U32(ut + ct);
      UnsignedTurn(t, b, a);
      UnsignedTurn(s, a, b);
      s1, t1 := TruncDiv(S32(us), 2), TruncDiv(S32(ut), 2);
    }

    method IsInDiamond(s: int, t: int) returns (r: bool)
      requires Valid() && Int32(s) && Int32(t)
      ensures r == InDiamond32(centerValue, Point(s, t))
    {
      var a, b := S32(Abs(s)), S32(Abs(t));
      r := S32(a + b) <= centerValue;
    }

    method ModMaxOf(x: int) returns (r: int)
      requires Valid() && Int32(x)
      ensures Int32(r) && r == ModMax(centerValue, x)
    {
      r := if x > centerValue then x - maxQuantizedValue else if x < -centerValue then x + maxQuantizedValue else x;
    }

    method ComputeCorrection(orig: seq<int>, pred: seq<int>, out: array<int>)
      requires Valid() && |orig| >= 2 && |pred| >= 2 && out.Length >= 2
      requires Int32(orig[0]) && Int32(orig[1]) && Int32(pred[0]) && Int32(pred[1])
      modifies out
      ensures Point(out[0], out[1]) == Correction32(centerValue, Point(orig[0], orig[1]), Point(pred[0], pred[1]))
      ensures forall i :: 2 <= i < out.Length ==> out[i] == old(out[i])
    {
      hide Inverted32, S32, InDiamond32, RotationCount, Rotated, Pow2;
      var ox, oy := S32(orig[0] - centerValue), S32(orig[1] - centerValue);
      var px, py := S32(pred[0] - centerValue), S32(pred[1] - centerValue);
      var inside := IsInDiamond(px, py);
      if !inside {
        ox, oy := InvertDiamond(ox, oy);
        px, py := InvertDiamond(px, py);
      }
      RotationLeads(Point(px, py), Point(px, py));
      if !BottomLeft(Point(px, py)) {
        var k := RotationCount(Point(px, py));
        var o, p := Turned(Point(ox, oy), k), Turned(Point(px, py), k);
        ox, oy, px, py := o.s, o.t, p.s, p.t;
      } else {
        NotTurned(Point(ox, oy));
        NotTurned(Point(px, py));
      }
      out[0] := MakePositive(centerValue, S32(ox - px));
      out[1] := MakePositive(centerValue, S32(oy - py));
    }

    method ComputeOriginalValue(pred: seq<int>, corr: seq<int>, out: array<int>)
      requires Valid() && |pred| >= 2 && |corr| >= 2 && out.Length >= 2
      requires Int32(pred[0]) && Int32(pred[1]) && Int32(corr[0]) && Int32(corr[1])
      modifies out
      ensures Point(out[0], out[1]) == Original32(centerValue, Point(pred[0], pred[1]), Point(corr[0], corr[1]))
      ensures forall i :: 2 <= i < out.Length ==> out[i] == old(out[i])
    {
      hide Inverted32, S32, InDiamond32, RotationCount, Rotated, Pow2, ModMax;
      var px, py := S32(pred[0] - centerValue), S32(pred[1] - centerValue);
      ghost var p := Point(px, py);
      var inside := IsInDiamond(px, py);
      if !inside {
        px, py := InvertDiamond(px, py);
      }
      var k := 0;
      RotationLeads(Point(px, py), Point(px, py));
      var bottomLeft := BottomLeft(Point(px, py));
      if !bottomLeft {
        k := RotationCount(Point(px, py));
        var turned := Turned(Point(px, py), k);
        px, py := turned.s, turned.t;
      } else {
        NotTurned(Point(px, py));
      }
      assert Point(px, py) == Forward32(centerValue, p, p);
      var ox := ModMaxOf(S32(px + corr[0]));
      var oy := ModMaxOf(S32(py + corr[1]));
      ghost var to := Point(ox, oy);
      if !bottomLeft {
        var turned := Turned(Point(ox, oy), (4 - k) % 4);
        ox, oy := turned.s, turned.t;
      } else {
        NotTurned(Point(ox, oy));
      }
      if !inside {
        ox, oy := InvertDiamond(ox, oy);
      }
      assert Point(ox, oy) == Backward32(centerValue, p, to);
      out[0], out[1] := S32(ox + centerValue), S32(oy + centerValue);
    }

    method IntegerVectorToQuantizedOctahedralCoords(v: Vector) returns (s: int, t: int)
      requires Valid()
      ensures Point(s, t) == Coordinates(centerValue, v)
    {
      if v.x >= 0 {
        s, t := v.y + centerValue, v.z + centerValue;
      } else {
        s := if v.y < 0 then Abs(v.z) else maxValue - Abs(v.z);
        t := if v.z < 0 then Abs(v.y) else maxValue - Abs(v.y);
      }
      s, t := CanonicalizeOctahedralCoords(s, t);
    }

    /** The integer part of quantising a normal, after scaling and rounding chose x, y and a sign. */
    method QuantizeNormal(x: int, y: int, negative: bool) returns (s: int, t: int)
      requires Valid() && Abs(x) <= centerValue && Abs(y) <= centerValue
      ensures Point(s, t) == Coordinates(centerValue, Quantized(centerValue, x, y, negative))
      ensures OnSquare(centerValue, Point(s, t)) && Canonical(centerValue, Point(s, t)) == Point(s, t)
    {
      hide Pow2, Coordinates, Canonical, OnSquare, Length1;
      var y1, z := y, centerValue - Abs(x) - Abs(y);
      if z < 0 {
        if y > 0 {
          y1 := y + z;
        } else {
          y1 := y - z;
        }
        z := 0;
      }
      if negative {
        z := -z;
      }
      QuantizedOnOctahedron(centerValue, x, y, negative);
      CoordinatesUnfold(centerValue, Quantized(centerValue, x, y, negative));
      s, t := IntegerVectorToQuantizedOctahedralCoords(Vector(x, y1, z));
    }

    method CanonicalizeIntegerVector(vec: array<int>)
      requires Valid() && forall i :: 0 <= i < vec.Length ==> -0x8000_0000 < vec[i] < 0x8000_0000
      modifies vec
      ensures vec.Length >= 3 ==> Vector(vec[0], vec[1], vec[2]) == Scaled(centerValue, old(Vector(vec[0], vec[1], vec[2])))
      ensures forall i :: 0 <= i < vec.Length && (i >= 3 || vec.Length < 3) ==> vec[i] == old(vec[i])
    {
      hide Scaled;
      if vec.Length < 3 {
        return;
      }
      var v := ScaledVector(vec[0], vec[1], vec[2]);
      vec[0], vec[1], vec[2] := v.x, v.y, v.z;
    }

    method ScaledVector(a: int, b: int, c: int) returns (v: Vector)
      requires Valid()
      ensures v == Scaled(centerValue, Vector(a, b, c))
    {
      hide TruncDiv, Pow2, Center, Abs;
      var absSum: nat := Abs(a) + Abs(b) + Abs(c);
      if absSum == 0 {
        return Vector(centerValue, 0, 0);
      }
      var x, y := TruncDiv(a * centerValue, absSum), TruncDiv(b * centerValue, absSum);
      var z := centerValue - Abs(x) - Abs(y);
      v := Vector(x, y, if c >= 0 then z else -z);
    }
  }
}
