/** Unit normals folded onto a square (internal/transform/octahedron.go): the diamond in the middle
    holds one half of the octahedron, the four corners hold the other, and points of the square's
    border that stand for one normal are made canonical. */
module Octahedra {
  import opened Bits
  import Wrapping

  datatype Point = Point(s: int, t: int)

  /** The centre value c of 2 to 30 quantisation bits; coordinates run from 0 to 2c. */
  predicate Center(c: int)
  {
    1 <= c < 0x2000_0000
  }

  function Abs(x: int): nat
  {
    if x < 0 then -x else x
  }

  predicate OnSquare(c: int, p: Point)
  {
    0 <= p.s <= 2 * c && 0 <= p.t <= 2 * c
  }

  function Centered(c: int, p: Point): Point
  {
    Point(p.s - c, p.t - c)
  }

  predicate Near(c: int, p: Point)
  {
    Abs(p.s) <= c && Abs(p.t) <= c
  }

  predicate InDiamond(c: int, p: Point)
  {
    Abs(p.s) + Abs(p.t) <= c
  }

  // ---- canonical coordinates -----------------------------------------------------------------

  function Canonical(c: int, p: Point): Point
  {
    var m := 2 * c;
    if p == Point(0, 0) || p == Point(0, m) || p == Point(m, 0) then Point(m, m)
    else if p.s == 0 && p.t > c then Point(p.s, c - (p.t - c))
    else if p.s == m && p.t < c then Point(p.s, c + (c - p.t))
    else if p.t == m && p.s < c then Point(c + (c - p.s), p.t)
    else if p.t == 0 && p.s > c then Point(c - (p.s - c), p.t)
    else p
  }

  predicate IsCorner(c: int, p: Point)
  {
    (p.s == 0 || p.s == 2 * c) && (p.t == 0 || p.t == 2 * c)
  }

  /** Two points of the square stand for one normal: border points mirrored in the middle of their
      side, and all four corners. */
  predicate SameNormal(c: int, p: Point, q: Point)
  {
    p == q || (IsCorner(c, p) && IsCorner(c, q)) ||
    ((p.s == 0 || p.s == 2 * c) && q == Point(p.s, 2 * c - p.t)) ||
    ((p.t == 0 || p.t == 2 * c) && q == Point(2 * c - p.s, p.t))
  }

  /** Canonical coordinates are one choice from each set of equivalent points. */
  lemma CanonicalChoice(c: int, p: Point, q: Point)
    requires Center(c) && OnSquare(c, p) && OnSquare(c, q)
    ensures OnSquare(c, Canonical(c, p)) && SameNormal(c, p, Canonical(c, p))
    ensures Canonical(c, p) == Canonical(c, q) <==> SameNormal(c, p, q)
  {
  }

  // ---- turning the square inside out -------------------------------------------------------

  /** Swaps a quadrant's triangles inside and outside the diamond, around the centre. */
  function Inverted(c: int, p: Point): Point
  {
    if p.s >= 0 && p.t >= 0 then Point(c - p.t, c - p.s)
    else if p.s <= 0 && p.t <= 0 then Point(-c - p.t, -c - p.s)
    else if p.s > 0 then Point(p.t + c, p.s - c)
    else Point(p.t - c, p.s + c)
  }

  /** Inside and outside of the diamond are exchanged. */
  lemma InvertedMirrors(c: int, p: Point)
    requires Center(c) && Near(c, p)
    ensures Near(c, Inverted(c, p))
    ensures Abs(Inverted(c, p).s) + Abs(Inverted(c, p).t) == 2 * c - Abs(p.s) - Abs(p.t)
  {
  }

  /** Inverting is undone by inverting again exactly at canonical coordinates. */
  lemma InvertedTwice(c: int, p: Point)
    requires Center(c) && OnSquare(c, p)
    ensures Inverted(c, Inverted(c, Centered(c, p))) == Centered(c, p) <==> Canonical(c, p) == p
  {
  }

  // ---- rotations ---------------------------------------------------------------------------

  predicate BottomLeft(p: Point)
  {
    p == Point(0, 0) || (p.s < 0 && p.t <= 0)
  }

  function RotationCount(p: Point): (k: nat)
    ensures k < 4
  {
    if p.s == 0 then (if p.t == 0 then 0 else if p.t > 0 then 3 else 1)
    else if p.s > 0 then (if p.t >= 0 then 2 else 1)
    else if p.t <= 0 then 0 else 3
  }

  function Rotated(p: Point, k: nat): Point
  {
    if k == 1 then Point(p.t, -p.s) else if k == 2 then Point(-p.s, -p.t) else if k == 3 then Point(-p.t, p.s) else p
  }

  /** The rotation count leads into the bottom left quadrant, and four less it leads back. */
  lemma RotationLeads(p: Point, q: Point)
    ensures BottomLeft(Rotated(p, RotationCount(p)))
    ensures BottomLeft(p) <==> RotationCount(p) == 0
    ensures Rotated(Rotated(q, RotationCount(p)), (4 - RotationCount(p)) % 4) == q
  {
  }

  // ---- arithmetic modulo 2c + 1 -------------------------------------------------------------

  function ModMax(c: int, x: int): int
  {
    if x > c then x - (2 * c + 1) else if x < -c then x + (2 * c + 1) else x
  }

  function MakePositive(c: int, x: int): int
  {
    if x < 0 then x + (2 * c + 1) else x
  }

  lemma DifferenceRestored(c: int, original: int, predicted: int)
    requires Center(c) && Abs(original) <= c && Abs(predicted) <= c
    ensures 0 <= MakePositive(c, original - predicted) < 2 * c + 1
    ensures ModMax(c, Wrapping.S32(predicted + MakePositive(c, original - predicted))) == original
  {
  }

  // ---- the prediction transform --------------------------------------------------------------

  /** What the two sides do to points before they take a difference. */
  function Forward(c: int, predicted: Point, p: Point): Point
  {
    var inside := InDiamond(c, predicted);
    var base := if inside then predicted else Inverted(c, predicted);
    Rotated(if inside then p else Inverted(c, p), RotationCount(base))
  }

  function Backward(c: int, predicted: Point, p: Point): Point
  {
    var inside := InDiamond(c, predicted);
    var base := if inside then predicted else Inverted(c, predicted);
    var turned := Rotated(p, (4 - RotationCount(base)) % 4);
    if inside then turned else Inverted(c, turned)
  }

  /** The correction of an original against a prediction, both on the square. */
  function Correction(c: int, original: Point, predicted: Point): Point
  {
    var p := Centered(c, predicted);
    var from, to := Forward(c, p, p), Forward(c, p, Centered(c, original));
    Point(MakePositive(c, to.s - from.s), MakePositive(c, to.t - from.t))
  }

  function Original(c: int, predicted: Point, correction: Point): Point
  {
    var p := Centered(c, predicted);
    var from := Forward(c, p, p);
    var to := Point(ModMax(c, Wrapping.S32(from.s + correction.s)), ModMax(c, Wrapping.S32(from.t + correction.t)));
    var back := Backward(c, p, to);
    Point(back.s + c, back.t + c)
  }

  lemma ForwardNear(c: int, predicted: Point, p: Point)
    requires Center(c) && Near(c, predicted) && Near(c, p)
    ensures Near(c, Forward(c, predicted, p))
  {
    InvertedMirrors(c, p);
  }

  /** Going forward and back is inverting twice, or nothing at all inside the diamond. */
  lemma ForwardBackward(c: int, predicted: Point, p: Point)
    ensures Backward(c, predicted, Forward(c, predicted, p)) ==
            if InDiamond(c, predicted) then p else Inverted(c, Inverted(c, p))
  {
    hide Inverted;
    var base := if InDiamond(c, predicted) then predicted else Inverted(c, predicted);
    RotationLeads(base, if InDiamond(c, predicted) then p else Inverted(c, p));
  }

  /** Corrections are never negative and never reach the modulus. */
  lemma CorrectionRange(c: int, original: Point, predicted: Point)
    requires Center(c) && OnSquare(c, original) && OnSquare(c, predicted)
    ensures 0 <= Correction(c, original, predicted).s < 2 * c + 1
    ensures 0 <= Correction(c, original, predicted).t < 2 * c + 1
  {
    hide Forward;
    var p := Centered(c, predicted);
    ForwardNear(c, p, p);
    ForwardNear(c, p, Centered(c, original));
  }

  /** The transform gives an original back, against any prediction on the square, exactly when the
      original is canonical or the prediction lies in the diamond. */
  lemma NormalRoundTrip(c: int, original: Point, predicted: Point)
    requires Center(c) && OnSquare(c, original) && OnSquare(c, predicted)
    ensures Original(c, predicted, Correction(c, original, predicted)) == original <==>
            Canonical(c, original) == original || InDiamond(c, Centered(c, predicted))
  {
    hide Forward, Backward, Inverted, Canonical, ModMax, MakePositive, InDiamond;
    var p, o := Centered(c, predicted), Centered(c, original);
    var from, to := Forward(c, p, p), Forward(c, p, o);
    ForwardNear(c, p, p);
    ForwardNear(c, p, o);
    DifferenceRestored(c, to.s, from.s);
    DifferenceRestored(c, to.t, from.t);
    ForwardBackward(c, p, o);
    InvertedTwice(c, original);
  }

  /** In particular canonical originals are never lost. */
  lemma CanonicalRoundTrip(c: int, original: Point, predicted: Point)
    requires Center(c) && OnSquare(c, original) && OnSquare(c, predicted) && Canonical(c, original) == original
    ensures Original(c, predicted, Correction(c, original, predicted)) == original
  {
    NormalRoundTrip(c, original, predicted);
  }

  // ---- where coordinates come from -------------------------------------------------------------

  datatype Vector = Vector(x: int, y: int, z: int)

  function Length1(v: Vector): nat
  {
    Abs(v.x) + Abs(v.y) + Abs(v.z)
  }

  /** Coordinates of an integer vector on the octahedron. */
  function Coordinates(c: int, v: Vector): Point
  {
    var p := if v.x >= 0 then Point(v.y + c, v.z + c)
             else Point(if v.y < 0 then Abs(v.z) else 2 * c - Abs(v.z), if v.z < 0 then Abs(v.y) else 2 * c - Abs(v.y));
    Canonical(c, p)
  }

  /** The vector on the octahedron that a point of the square stands for. */
  function Unfold(c: int, p: Point): Vector
  {
    var y, z := p.s - c, p.t - c;
    var x := c - Abs(y) - Abs(z);
    if x >= 0 then Vector(x, y, z)
    else Vector(x, if y < 0 then y - x else y + x, if z < 0 then z - x else z + x)
  }

  /** Coordinates of a vector on the octahedron are canonical and unfold to that vector. */
  lemma CoordinatesUnfold(c: int, v: Vector)
    requires Center(c) && Length1(v) == c
    ensures OnSquare(c, Coordinates(c, v)) && Canonical(c, Coordinates(c, v)) == Coordinates(c, v)
    ensures Unfold(c, Coordinates(c, v)) == v
  {
  }

  /** A quantised vector from two rounded components and the sign of the third. */
  function Quantized(c: int, x: int, y: int, negative: bool): Vector
  {
    var z := c - Abs(x) - Abs(y);
    var y1 := if z >= 0 then y else if y > 0 then y + z else y - z;
    var z1 := if z < 0 then 0 else z;
    Vector(x, y1, if negative then -z1 else z1)
  }

  lemma QuantizedOnOctahedron(c: int, x: int, y: int, negative: bool)
    requires Center(c) && Abs(x) <= c && Abs(y) <= c
    ensures Length1(Quantized(c, x, y, negative)) == c
  {
  }

  /** CanonicalizeIntegerVector: scales a vector onto the octahedron. */
  function Scaled(c: int, v: Vector): Vector
  {
    var n := Length1(v);
    if n == 0 then Vector(c, 0, 0)
    else
      var x, y := TruncDiv(v.x * c, n), TruncDiv(v.y * c, n);
      var z := c - Abs(x) - Abs(y);
      Vector(x, y, if v.z >= 0 then z else -z)
  }

  lemma ScaledPart(c: int, x: int, n: nat)
    requires c > 0 && n > 0
    ensures Abs(TruncDiv(x * c, n)) == Abs(x) * c / n
  {
    assert Abs(x) * c == Abs(x * c);
  }

  lemma CancelFactor(a: int, b: int, n: nat)
    requires n > 0 && a * n <= b * n
    ensures a <= b
  {
    if a >= b + 1 {
      MulMono(b + 1, a, n);
    }
  }

  lemma SharesBound(a: nat, b: nat, n: nat, c: nat)
    requires n > 0 && a + b <= n
    ensures a * c / n + b * c / n <= c
  {
    var i, j := a * c / n, b * c / n;
    assert i * n <= a * c && j * n <= b * c;
    assert (i + j) * n <= (a + b) * c;
    MulMono(a + b, n, c);
    MulMono(0, a + b, c);
    assert (i + j) * n <= c * n;
    CancelFactor(i + j, c, n);
  }

  lemma ScaledOnOctahedron(c: int, v: Vector)
    requires Center(c)
    ensures Length1(Scaled(c, v)) == c
  {
    var n := Length1(v);
    if n != 0 {
      ScaledPart(c, v.x, n);
      ScaledPart(c, v.y, n);
      SharesBound(Abs(v.x), Abs(v.y), n, c);
    }
  }
}
