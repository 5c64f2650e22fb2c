/** What points of the square stand for (internal/transform/octahedron.go, internal/transform/normal.go):
    axes, sides and mirror images on the octahedron, told by unfolding. */
module OctahedronMeaning {
  import opened Bits
  import opened Octahedra

  /** The centre is the x axis, the middles of the sides are the y and z axes, and the corner that is
      kept is the negative x axis. */
  lemma AxesAt(c: int)
    requires Center(c)
    ensures Coordinates(c, Vector(c, 0, 0)) == Point(c, c) && Coordinates(c, Vector(-c, 0, 0)) == Point(2 * c, 2 * c)
    ensures Coordinates(c, Vector(0, c, 0)) == Point(2 * c, c) && Coordinates(c, Vector(0, -c, 0)) == Point(0, c)
    ensures Coordinates(c, Vector(0, 0, c)) == Point(c, 2 * c) && Coordinates(c, Vector(0, 0, -c)) == Point(c, 0)
  {
  }

  /** Inside the diamond a point is the offset of its vector; the other half is folded outwards. */
  lemma FrontIsOffset(c: int, v: Vector)
    requires Center(c) && Length1(v) == c
    ensures v.x >= 0 ==> InDiamond(c, Centered(c, Coordinates(c, v)))
    ensures v.x > 0 ==> Coordinates(c, v) == Point(c + v.y, c + v.z)
    ensures v.x < 0 ==> !InDiamond(c, Centered(c, Coordinates(c, v)))
  {
  }

  /** Of the border points for one normal those are kept on the near half of the left and the bottom side and
      on the far half of the right and the top side; of the corners the last one. */
  lemma CanonicalSide(c: int, p: Point)
    requires Center(c) && OnSquare(c, p)
    ensures var q := Canonical(c, p);
            (IsCorner(c, p) ==> q == Point(2 * c, 2 * c)) &&
            (q.s == 0 ==> q.t <= c) && (q.t == 0 ==> q.s <= c) && (q.s == 2 * c ==> q.t >= c) && (q.t == 2 * c ==> q.s >= c) &&
            (0 < p.s < 2 * c && 0 < p.t < 2 * c ==> q == p)
  {
  }

  /** Inverting mirrors the octahedron: it negates the component that is folded. */
  lemma InvertedUnfolds(c: int, p: Point)
    requires Center(c) && OnSquare(c, p)
    ensures var q, v := Inverted(c, Centered(c, p)), Unfold(c, p);
            Unfold(c, Point(q.s + c, q.t + c)) == Vector(-v.x, v.y, v.z)
  {
  }

  /** A rotation count is a number of quarter turns. */
  lemma QuarterTurns(p: Point)
    ensures Rotated(p, 0) == p && Rotated(p, 1) == Point(p.t, -p.s)
    ensures Rotated(p, 2) == Rotated(Rotated(p, 1), 1) && Rotated(p, 3) == Rotated(Rotated(p, 2), 1)
  {
  }

  /** Against a prediction in the bottom left of the diamond, where nothing is turned, the correction is
      the difference to it modulo 2c + 1. */
  lemma PlainCorrection(c: int, original: Point, predicted: Point)
    requires Center(c) && OnSquare(c, original) && OnSquare(c, predicted)
    requires InDiamond(c, Centered(c, predicted)) && BottomLeft(Centered(c, predicted))
    ensures var k, m := Correction(c, original, predicted), 2 * c + 1;
            0 <= k.s < m && 0 <= k.t < m && predicted.s + k.s - original.s in {0, m} && predicted.t + k.t - original.t in {0, m}
  {
    RotationLeads(Centered(c, predicted), Centered(c, predicted));
  }

  /** Against any other prediction it is the correction of the points turned and mirrored the same way. */
  lemma TurnedCorrection(c: int, original: Point, predicted: Point)
    requires Center(c) && OnSquare(c, original) && OnSquare(c, predicted)
    ensures var p, o := Centered(c, predicted), Centered(c, original);
            var p1, o1 := if InDiamond(c, p) then p else Inverted(c, p), if InDiamond(c, p) then o else Inverted(c, o);
            var k := RotationCount(p1);
            var p2, o2 := Rotated(p1, k), Rotated(o1, k);
            BottomLeft(p2) && InDiamond(c, p2) &&
            Correction(c, original, predicted) == Correction(c, Point(o2.s + c, o2.t + c), Point(p2.s + c, p2.t + c))
  {
    hide Inverted, MakePositive, Forward, Rotated, RotationCount, BottomLeft;
    var p, o := Centered(c, predicted), Centered(c, original);
    InvertedMirrors(c, p);
    var p1, o1 := if InDiamond(c, p) then p else Inverted(c, p), if InDiamond(c, p) then o else Inverted(c, o);
    TurnedStays(c, p1);
    var p2, o2 := Rotated(p1, RotationCount(p1)), Rotated(o1, RotationCount(p1));
    ForwardIs(c, p, p);
    ForwardIs(c, p, o);
    ForwardPlain(c, p2, p2);
    ForwardPlain(c, p2, o2);
    assert Centered(c, Point(p2.s + c, p2.t + c)) == p2 && Centered(c, Point(o2.s + c, o2.t + c)) == o2;
  }

  lemma ForwardIs(c: int, p: Point, x: Point)
    ensures Forward(c, p, x) == if InDiamond(c, p) then Rotated(x, RotationCount(p)) else Rotated(Inverted(c, x), RotationCount(Inverted(c, p)))
  {
  }

  lemma ForwardPlain(c: int, p: Point, x: Point)
    requires InDiamond(c, p) && RotationCount(p) == 0
    ensures Forward(c, p, x) == x
  {
  }

  lemma TurnedStays(c: int, p: Point)
    requires InDiamond(c, p)
    ensures InDiamond(c, Rotated(p, RotationCount(p))) && BottomLeft(Rotated(p, RotationCount(p)))
    ensures RotationCount(Rotated(p, RotationCount(p))) == 0
  {
    RotationLeads(p, p);
    RotationLeads(Rotated(p, RotationCount(p)), p);
  }

  /** Scaling keeps directions: the first two components are their exact shares rounded towards zero, and
      the third one has the sign it had. */
  lemma ScaledShares(c: int, v: Vector)
    requires Center(c) && Length1(v) > 0
    ensures var n, r := Length1(v), Scaled(c, v);
            Abs(r.x) * n <= Abs(v.x) * c < (Abs(r.x) + 1) * n && (v.x >= 0 ==> r.x >= 0) && (v.x <= 0 ==> r.x <= 0) &&
            Abs(r.y) * n <= Abs(v.y) * c < (Abs(r.y) + 1) * n && (v.y >= 0 ==> r.y >= 0) && (v.y <= 0 ==> r.y <= 0) &&
            (v.z >= 0 ==> r.z >= 0) && (v.z < 0 ==> r.z <= 0)
  {
    var n := Length1(v);
    ScaledOnOctahedron(c, v);
    hide Length1;
    Share(v.x, c, n);
    Share(v.y, c, n);
    LastShare(c, v);
  }

  lemma Share(x: int, c: int, n: nat)
    requires c > 0 && n > 0
    ensures var r := TruncDiv(x * c, n);
            Abs(r) * n <= Abs(x) * c < (Abs(r) + 1) * n && (x >= 0 ==> r >= 0) && (x <= 0 ==> r <= 0)
  {
    ScaledPart(c, x, n);
    QuotientBounds(Abs(x) * c, n);
    if x >= 0 {
      MulMono(0, x, c);
    } else {
      MulMono(x, 0, c);
    }
  }

  lemma QuotientBounds(a: int, n: nat)
    requires n > 0
    ensures a / n * n <= a < (a / n + 1) * n
  {
    assert a == a / n * n + a % n;
  }

  lemma LastShare(c: int, v: Vector)
    requires Center(c) && Length1(v) > 0 && Length1(Scaled(c, v)) == c
    ensures (v.z >= 0 ==> Scaled(c, v).z >= 0) && (v.z < 0 ==> Scaled(c, v).z <= 0)
  {
    hide TruncDiv;
  }

  /** Quantising keeps the first component, and the second one unless both together are too large, which
      takes off the excess; what is left is the third one, with the sign that was chosen. */
  lemma QuantizedShares(c: int, x: int, y: int, negative: bool)
    requires Center(c) && Abs(x) <= c && Abs(y) <= c
    ensures var v := Quantized(c, x, y, negative);
            v.x == x && Abs(v.y) == (if Abs(x) + Abs(y) <= c then Abs(y) else c - Abs(x)) && (y >= 0 ==> v.y >= 0) && (y <= 0 ==> v.y <= 0) &&
            Abs(v.z) == c - Abs(v.x) - Abs(v.y) && (if negative then v.z <= 0 else v.z >= 0)
  {
  }
}
