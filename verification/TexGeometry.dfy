/** When texture coordinates follow the shape of the mesh (mesh_prediction_texcoord.go): where the
    triangle in the texture is similar to the triangle in space, one candidate is the coordinate itself
    and the other one its mirror image over the edge. */
module TexGeometry {
  import opened Bits
  import opened Wrapping
  import opened TexCoords
  import Prediction

  predicate Int64(x: int)
  {
    -0x8000_0000_0000_0000 <= x < 0x8000_0000_0000_0000
  }

  lemma Unwrapped64(x: int)
    requires Int64(x)
    ensures S64(x) == x
  {
  }

  function Minus3(a: Vec3, b: Vec3): Vec3
  {
    Vec3(a.x - b.x, a.y - b.y, a.z - b.z)
  }

  function Minus2(a: Vec2, b: Vec2): Vec2
  {
    Vec2(a.x - b.x, a.y - b.y)
  }

  function Inner3(a: Vec3, b: Vec3): int
  {
    a.x * b.x + a.y * b.y + a.z * b.z
  }

  function Inner2(a: Vec2, b: Vec2): int
  {
    a.x * b.x + a.y * b.y
  }

  /** Twice the signed area between two vectors. */
  function Cross2(a: Vec2, b: Vec2): int
  {
    a.x * b.y - a.y * b.x
  }

  predicate Vec64(a: Vec3)
  {
    Int64(a.x) && Int64(a.y) && Int64(a.z)
  }

  /** The triangle over the edge with the tip at s has the shape of the one over d with its tip at t: the same
      angle at the common corner, and sides in the same ratio. */
  predicate Similar(t: Vec3, d: Vec3, s: Vec2, e: Vec2)
  {
    Inner2(s, e) * Inner3(d, d) == Inner3(t, d) * Inner2(e, e) && Inner2(s, s) * Inner3(d, d) == Inner3(t, t) * Inner2(e, e)
  }

  /** Square of twice the area of the triangle in space. */
  function Area(t: Vec3, d: Vec3): int
  {
    Inner3(t, t) * Inner3(d, d) - Inner3(t, d) * Inner3(t, d)
  }

  /** The foot of the tip's height on the edge, from the next corner; q is the foot when D q = a d. */
  predicate Foot(t: Vec3, d: Vec3, q: Vec3)
  {
    var n, a := Inner3(d, d), Inner3(t, d);
    n * q.x == a * d.x && n * q.y == a * d.y && n * q.z == a * d.z
  }

  // ---- plane geometry over integers ------------------------------------------------------------------------

  lemma Cancel(k: int, x: int, y: int)
    requires k > 0 && k * x == k * y
    ensures x == y
  {
    if x < y {
      MulStrict(k, x, y);
    } else if y < x {
      MulStrict(k, y, x);
    }
  }

  lemma MulStrict(k: int, x: int, y: int)
    requires k > 0 && x < y
    ensures k * x < k * y
  {
  }

  lemma SameSquares(x: int, y: int)
    requires x * x == y * y
    ensures x == y || x == -y
  {
    assert (x - y) * (x + y) == 0;
  }

  function Scaled3(k: int, v: Vec3): Vec3
  {
    Vec3(k * v.x, k * v.y, k * v.z)
  }

  lemma InnerScaled(k: int, u: Vec3, v: Vec3)
    ensures Inner3(u, Scaled3(k, v)) == k * Inner3(u, v)
  {
    Distributes(k, u.x, v.x);
    Distributes(k, u.y, v.y);
    Distributes(k, u.z, v.z);
    assert k * Inner3(u, v) == k * (u.x * v.x) + k * (u.y * v.y) + k * (u.z * v.z);
  }

  lemma Distributes(k: int, x: int, y: int)
    ensures x * (k * y) == k * (x * y)
  {
  }

  lemma InnerSymmetric(u: Vec3, v: Vec3)
    ensures Inner3(u, v) == Inner3(v, u)
  {
  }

  lemma InnerMinus(t: Vec3, q: Vec3)
    ensures Inner3(Minus3(t, q), Minus3(t, q)) == Inner3(t, t) - 2 * Inner3(t, q) + Inner3(q, q)
  {
    SquareMinus(t.x, q.x);
    SquareMinus(t.y, q.y);
    SquareMinus(t.z, q.z);
  }

  lemma SquareMinus(x: int, y: int)
    ensures (x - y) * (x - y) == x * x - 2 * (x * y) + y * y
  {
  }

  /** The square of the height, times that of the edge, is the square of twice the area. */
  lemma HeightOf(t: Vec3, d: Vec3, q: Vec3)
    requires Foot(t, d, q) && Inner3(d, d) > 0
    ensures Inner3(Minus3(t, q), Minus3(t, q)) * Inner3(d, d) == Area(t, d)
  {
    var n, a := Inner3(d, d), Inner3(t, d);
    assert Scaled3(n, q) == Scaled3(a, d);
    InnerScaled(n, t, q);
    InnerScaled(a, t, d);
    InnerScaled(n, d, q);
    InnerScaled(a, d, d);
    InnerScaled(n, q, q);
    InnerScaled(a, q, d);
    InnerSymmetric(d, q);
    hide Inner3, Scaled3, Foot;
    InnerMinus(t, q);
    HeightSum(n, a, Inner3(t, t), Inner3(t, q), Inner3(q, d), Inner3(q, q));
  }

  lemma HeightSum(n: int, a: int, tt: int, tq: int, qd: int, qq: int)
    requires n > 0 && n * tq == a * a && n * qd == a * n && n * qq == a * qd
    ensures (tt - 2 * tq + qq) * n == tt * n - a * a
  {
    Cancel(n, qd, a);
  }

  /** A vector is made up of its parts along and across another. */
  lemma Parts(s: Vec2, e: Vec2)
    ensures s.x * Inner2(e, e) == Inner2(s, e) * e.x + Cross2(s, e) * e.y
    ensures s.y * Inner2(e, e) == Inner2(s, e) * e.y - Cross2(s, e) * e.x
    ensures Cross2(s, e) * Cross2(s, e) == Inner2(s, s) * Inner2(e, e) - Inner2(s, e) * Inner2(s, e)
  {
  }

  /** s is the part a of the edge along it and k of it across, in units of the edge's n. */
  predicate TipAt(n: int, a: int, k: int, s: Vec2, e: Vec2)
  {
    n * s.x == a * e.x + k * e.y && n * s.y == a * e.y - k * e.x
  }

  /** The tip of a similar triangle lies on the side of the edge that the sign of its area says. */
  lemma SimilarTip(t: Vec3, d: Vec3, s: Vec2, e: Vec2, h: int)
    requires Similar(t, d, s, e) && Inner3(d, d) > 0 && Inner2(e, e) > 0 && h >= 0 && h * h == Area(t, d)
    ensures TipAt(Inner3(d, d), Inner3(t, d), if Cross2(s, e) >= 0 then h else -h, s, e)
  {
    Parts(s, e);
    hide Inner3, Inner2, Cross2;
    var n, a, cross, square := Inner3(d, d), Inner3(t, d), Cross2(s, e), Inner2(e, e);
    CrossOf(n, a, Inner3(t, t), cross, square, Inner2(s, e), Inner2(s, s), h);
    SideOf(cross, n, h, square);
    TipOf(n, a, if cross >= 0 then h else -h, cross, square, Inner2(s, e), s, e);
  }

  lemma SideOf(cross: int, n: int, h: int, square: int)
    requires n > 0 && square > 0 && h >= 0 && (cross * n == h * square || cross * n == -h * square)
    ensures cross * n == (if cross >= 0 then h else -h) * square
  {
    MulMono(0, h, square);
    Negated(h, square, h, square);
    if cross >= 0 {
      MulMono(0, cross, n);
    } else {
      MulStrict(n, cross, 0);
      assert cross * n == n * cross < 0;
    }
  }

  lemma TipOf(n: int, a: int, k: int, cross: int, square: int, along: int, s: Vec2, e: Vec2)
    requires square > 0 && along * n == a * square && cross * n == k * square
    requires s.x * square == along * e.x + cross * e.y && s.y * square == along * e.y - cross * e.x
    ensures TipAt(n, a, k, s, e)
  {
    OnePart(n, a, k, cross, square, along, s.x, e.x, e.y);
    Negated(cross, n, k, square);
    Negated(cross, e.x, cross, e.x);
    OnePart(n, a, -k, -cross, square, along, s.y, e.y, e.x);
    Negated(k, e.x, k, e.x);
  }

  lemma Negated(x: int, y: int, u: int, v: int)
    requires x * y == u * v
    ensures -x * y == -(x * y) == -u * v
  {
  }

  lemma CrossOf(n: int, a: int, tt: int, cross: int, square: int, along: int, ss: int, h: int)
    requires cross * cross == ss * square - along * along && along * n == a * square && ss * n == tt * square && h * h == tt * n - a * a
    ensures cross * n == h * square || cross * n == -h * square
  {
    SquareOfProduct(cross, n);
    SquareOfProduct(h, square);
    CrossSquares(n, ss, square, along, cross * cross);
    TakeSquare(tt, square, n, a);
    SameSquares(cross * n, h * square);
    Negated(h, square, h, square);
  }

  lemma SquareOfProduct(x: int, y: int)
    ensures (x * y) * (x * y) == (x * x) * (y * y)
  {
  }

  lemma CrossSquares(n: int, ss: int, square: int, along: int, cc: int)
    requires cc == ss * square - along * along
    ensures cc * (n * n) == (ss * n) * (square * n) - (along * n) * (along * n)
  {
    assert (ss * square) * (n * n) == (ss * n) * (square * n);
    assert (along * along) * (n * n) == (along * n) * (along * n);
  }

  lemma TakeSquare(tt: int, square: int, n: int, a: int)
    ensures (tt * square) * (square * n) - (a * square) * (a * square) == (tt * n - a * a) * (square * square)
  {
    assert (tt * square) * (square * n) == (tt * n) * (square * square);
    assert (a * square) * (a * square) == (a * a) * (square * square);
  }

  lemma OnePart(n: int, a: int, k: int, cross: int, square: int, along: int, s: int, e: int, f: int)
    requires square > 0 && s * square == along * e + cross * f && along * n == a * square && cross * n == k * square
    ensures n * s == a * e + k * f
  {
    assert square * (n * s) == n * (s * square) == (along * n) * e + (cross * n) * f;
    assert (along * n) * e == square * (a * e) && (cross * n) * f == square * (k * f);
    Cancel(square, n * s, a * e + k * f);
  }

  // ---- the candidates ----------------------------------------------------------------------------------------

  /** One coordinate of the foot q on the edge d, and nothing on the way to it leaves its 64 bits. */
  predicate FootAxis(next: int, t: int, d: int, n: int, a: int, q: int)
  {
    Int64(t) && Int64(d) && Int64(d * a) && q * n == d * a && Int64(q) && Int64(next + q) && Int64(t - q)
  }

  /** Nothing on the way to one coordinate of two candidates leaves its 64 bits. */
  predicate ClearAxis(from: int, along: int, across: int, n: int, a: int, h: int, u: int, v: int)
  {
    Int64(from * n) && Int64(along * a) && Int64(from * n + along * a) && Int64(across * h) && Int64(u) && Int64(v) && Int64(u * n) && Int64(v * n)
  }

  /** One coordinate of the two candidates. */
  predicate SideAxis(from: int, along: int, across: int, n: int, a: int, h: int, plus: int, minus: int)
  {
    ClearAxis(from, along, across, n, a, h, plus, minus) &&
    plus * n == from * n + along * a + across * h && minus * n == from * n + along * a - across * h
  }

  /** Foot and height are whole numbers, the root is exact, and nothing wraps around on the way to them. */
  ghost predicate Measured(e: Vec2, next: Vec3, t: Vec3, d: Vec3, n: int, a: int, q: Vec3, h: int)
  {
    FootAxis(next.x, t.x, d.x, n, a, q.x) && FootAxis(next.y, t.y, d.y, n, a, q.y) && FootAxis(next.z, t.z, d.z, n, a, q.z) &&
    0 < n && Int64(n) && Int64(a) && n == Inner3(d, d) && a == Inner3(t, d) && Area(t, d) < 0x1_0000_0000_0000_0000 &&
    Int64(e.x) && Int64(e.y) && Int64(-e.x) && 0 <= h && Int64(h) && h * h == Area(t, d) && IntSqrt(h * h) == h
  }

  lemma DividesBack(n: int, q: int, m: int)
    requires n > 0 && q * n == m && Int64(m) && Int64(q)
    ensures Div64(S64(m), n) == q
  {
    TruncMultiple(n, q);
    assert n * q == m;
  }

  lemma FootFound(next: Vec3, t: Vec3, d: Vec3, n: int, a: int, q: Vec3)
    requires FootAxis(next.x, t.x, d.x, n, a, q.x) && FootAxis(next.y, t.y, d.y, n, a, q.y) && FootAxis(next.z, t.z, d.z, n, a, q.z) && n > 0
    ensures Add3(next, Div3(Scale3(d, a), n)) == Vec3(next.x + q.x, next.y + q.y, next.z + q.z)
  {
    hide Div64, S64;
    DividesBack(n, q.x, d.x * a);
    DividesBack(n, q.y, d.y * a);
    DividesBack(n, q.z, d.z * a);
    Unwrapped64(next.x + q.x);
    Unwrapped64(next.y + q.y);
    Unwrapped64(next.z + q.z);
  }

  lemma SquareNonnegative(x: int)
    ensures x * x >= 0
  {
  }

  lemma FactorBelow(f: int, n: int, area: int)
    requires f >= 0 && n > 0 && f * n == area < 0x1_0000_0000_0000_0000
    ensures U64(f) == f && U64(f * n) == area && area >= 0
  {
    MulMono(1, n, f);
  }

  lemma FeetAreFoot(next: Vec3, t: Vec3, d: Vec3, q: Vec3)
    requires var n, a := Inner3(d, d), Inner3(t, d);
             FootAxis(next.x, t.x, d.x, n, a, q.x) && FootAxis(next.y, t.y, d.y, n, a, q.y) && FootAxis(next.z, t.z, d.z, n, a, q.z)
    ensures Foot(t, d, q)
  {
    var n, a := Inner3(d, d), Inner3(t, d);
    hide Inner3;
    Swaps(n, q.x, d.x, a);
    Swaps(n, q.y, d.y, a);
    Swaps(n, q.z, d.z, a);
  }

  lemma Swaps(x: int, y: int, u: int, v: int)
    ensures x * y == y * x && u * v == v * u
  {
  }

  lemma SquareSum(r: Vec3)
    ensures Inner3(r, r) >= 0
  {
    SquareNonnegative(r.x);
    SquareNonnegative(r.y);
    SquareNonnegative(r.z);
  }

  /** The height is found from the foot. */
  lemma HeightFound(tip: Vec3, next: Vec3, d: Vec3, n: nat, q: Vec3)
    requires var t := Minus3(tip, next);
             n == Inner3(d, d) > 0 && Foot(t, d, q) && Vec64(Minus3(t, q)) && Area(t, d) < 0x1_0000_0000_0000_0000
    ensures Area(Minus3(tip, next), d) >= 0
    ensures U64(Norm3(Sub3(tip, Vec3(next.x + q.x, next.y + q.y, next.z + q.z))) * n) == Area(Minus3(tip, next), d)
  {
    var t := Minus3(tip, next);
    HeightOf(t, d, q);
    var r := Minus3(t, q);
    SquareSum(r);
    FactorBelow(Inner3(r, r), n, Area(t, d));
    hide Area, Foot;
    Unwrapped64(r.x);
    Unwrapped64(r.y);
    Unwrapped64(r.z);
    assert Sub3(tip, Vec3(next.x + q.x, next.y + q.y, next.z + q.z)) == r;
    assert Norm3(r) == U64(Inner3(r, r));
  }

  lemma AxisFound(from: int, along: int, across: int, n: int, a: int, h: int, plus: int, minus: int)
    requires n > 0 && SideAxis(from, along, across, n, a, h, plus, minus)
    ensures S64(S64(from * n) + S64(along * a)) == from * n + along * a && S64(across * h) == across * h
    ensures Div64(S64(from * n + along * a + across * h), n) == plus
    ensures Div64(S64(from * n + along * a - across * h), n) == minus
  {
    hide Div64, S64;
    Unwrapped64(from * n);
    Unwrapped64(along * a);
    Unwrapped64(from * n + along * a);
    Unwrapped64(across * h);
    DividesBack(n, plus, plus * n);
    DividesBack(n, minus, minus * n);
  }

  lemma SidesFound(nextUV: Vec2, e: Vec2, n: int, a: int, h: int, plus: Vec2, minus: Vec2)
    requires n > 0 && Int64(h) && Int64(-e.x)
    requires SideAxis(nextUV.x, e.x, e.y, n, a, h, plus.x, minus.x) && SideAxis(nextUV.y, e.y, -e.x, n, a, h, plus.y, minus.y)
    ensures var xUV, cxUV := Add2(Scale2(nextUV, n), Scale2(e, a)), Scale2(Vec2(e.y, S64(-e.x)), S64(h));
            Div2(Add2(xUV, cxUV), n) == plus && Div2(Sub2(xUV, cxUV), n) == minus
  {
    hide Div64, S64, SideAxis;
    AxisFound(nextUV.x, e.x, e.y, n, a, h, plus.x, minus.x);
    AxisFound(nextUV.y, e.y, -e.x, n, a, h, plus.y, minus.y);
    Unwrapped64(h);
    Unwrapped64(-e.x);
  }

  lemma Unwrapped3(a: Vec3, b: Vec3)
    requires Vec64(Minus3(a, b))
    ensures Sub3(a, b) == Minus3(a, b)
  {
    hide S64;
    Unwrapped64(a.x - b.x);
    Unwrapped64(a.y - b.y);
    Unwrapped64(a.z - b.z);
  }

  lemma UnwrappedInner(u: Vec3, v: Vec3)
    requires Int64(Inner3(u, v))
    ensures Dot3(u, v) == Inner3(u, v)
    ensures u == v && Inner3(u, v) >= 0 ==> Norm3(u) == Inner3(u, v)
  {
    hide S64, U64;
    Unwrapped64(Inner3(u, v));
    if Inner3(u, v) >= 0 {
      Unsigned64(Inner3(u, v));
    }
  }

  lemma Unsigned64(x: nat)
    requires Int64(x)
    ensures U64(x) == x
  {
  }

  lemma Unwrapped2(a: Vec2, b: Vec2)
    requires Int64(a.x - b.x) && Int64(a.y - b.y)
    ensures Sub2(a, b) == Minus2(a, b)
  {
  }

  /** The steps of the computation put together. */
  lemma CandidatesFrom(nextUV: Vec2, prevUV: Vec2, tip: Vec3, next: Vec3, prev: Vec3, t: Vec3, d: Vec3, e: Vec2, n: nat, a: int, foot: Vec3, h: nat, plus: Vec2, minus: Vec2)
    requires Sub3(prev, next) == d && Sub3(tip, next) == t && Sub2(prevUV, nextUV) == e && Norm3(d) == n > 0 && S64(n) == n && Dot3(t, d) == a
    requires Add3(next, Div3(Scale3(d, a), n)) == foot && IntSqrt(U64(Norm3(Sub3(tip, foot)) * n)) == h
    requires var xUV, cxUV := Add2(Scale2(nextUV, n), Scale2(e, a)), Scale2(Vec2(e.y, S64(-e.x)), S64(h));
             Div2(Add2(xUV, cxUV), n) == plus && Div2(Sub2(xUV, cxUV), n) == minus
    ensures Candidates(nextUV, prevUV, tip, next, prev) == Some((RowOf(plus), RowOf(minus)))
  {
    hide IntSqrt, S64, U64, RowOf, Dot3, Norm3, Add2, Sub2, Scale2, Div2, Add3, Div3, Scale3, Sub3;
  }

  /** The two candidates are those whole numbers. */
  lemma CandidatesAre(nextUV: Vec2, prevUV: Vec2, tip: Vec3, next: Vec3, prev: Vec3, n: int, a: int, q: Vec3, h: int, plus: Vec2, minus: Vec2)
    requires var e := Minus2(prevUV, nextUV);
             Measured(e, next, Minus3(tip, next), Minus3(prev, next), n, a, q, h) &&
             SideAxis(nextUV.x, e.x, e.y, n, a, h, plus.x, minus.x) && SideAxis(nextUV.y, e.y, -e.x, n, a, h, plus.y, minus.y)
    ensures Candidates(nextUV, prevUV, tip, next, prev) == Some((RowOf(plus), RowOf(minus)))
  {
    var t, d, e := Minus3(tip, next), Minus3(prev, next), Minus2(prevUV, nextUV);
    hide Inner3, Area, IntSqrt, SideAxis, S64, U64, Foot, RowOf, Dot3, Norm3, Add2, Sub2, Scale2, Div2, Add3, Div3, Scale3, Sub3, Candidates;
    FootOffsets(next, t, d, n, a, q);
    hide FootAxis;
    Unwrapped3(prev, next);
    Unwrapped3(tip, next);
    Unwrapped2(prevUV, nextUV);
    UnwrappedInner(d, d);
    UnwrappedInner(t, d);
    FeetAreFoot(next, t, d, q);
    FootFound(next, t, d, n, a, q);
    HeightFound(tip, next, d, n, q);
    Unwrapped64(n);
    SidesFound(nextUV, e, n, a, h, plus, minus);
    CandidatesFrom(nextUV, prevUV, tip, next, prev, t, d, e, n, a, Vec3(next.x + q.x, next.y + q.y, next.z + q.z), h, plus, minus);
  }

  lemma FootOffsets(next: Vec3, t: Vec3, d: Vec3, n: int, a: int, q: Vec3)
    requires FootAxis(next.x, t.x, d.x, n, a, q.x) && FootAxis(next.y, t.y, d.y, n, a, q.y) && FootAxis(next.z, t.z, d.z, n, a, q.z)
    ensures Vec64(d) && Vec64(t) && Vec64(Minus3(t, q))
  {
  }

  /** The mirror image of the tip over the edge through its foot m. */
  function Mirror(nextUV: Vec2, m: Vec2, tipUV: Vec2): Vec2
  {
    Vec2(2 * (nextUV.x + m.x) - tipUV.x, 2 * (nextUV.y + m.y) - tipUV.y)
  }

  lemma OnSides(from: int, along: int, across: int, n: int, a: int, k: int, m: int, u: int)
    requires n * (u - from) == a * along + k * across && m * n == along * a
    ensures u * n == from * n + along * a + across * k
    ensures (2 * (from + m) - u) * n == from * n + along * a - across * k
  {
    assert n * (u - from) == u * n - from * n;
    assert (2 * (from + m) - u) * n == 2 * (from * n) + 2 * (m * n) - u * n;
  }

  lemma NegatedAcross(k: int, x: int)
    ensures x * -k == -(x * k) && -x * k == -(x * k) && k * -x == -(k * x)
  {
  }

  lemma RowOfSmall(v: Vec2)
    requires Int32(v.x) && Int32(v.y)
    ensures RowOf(v) == [v.x, v.y]
  {
  }

  /** Where the triangle in the texture is similar to the one in space, one candidate is the texture
      coordinate itself and the other one its mirror image over the edge; which is which is told by the
      side of the edge on which it lies. */
  lemma SimilarCandidates(nextUV: Vec2, prevUV: Vec2, tipUV: Vec2, tip: Vec3, next: Vec3, prev: Vec3, n: int, a: int, q: Vec3, h: int, m: Vec2)
    requires var t, d, s, e := Minus3(tip, next), Minus3(prev, next), Minus2(tipUV, nextUV), Minus2(prevUV, nextUV);
             var other := Mirror(nextUV, m, tipUV);
             Similar(t, d, s, e) && Inner2(e, e) > 0 && Measured(e, next, t, d, n, a, q, h) &&
             m.x * n == e.x * a && m.y * n == e.y * a &&
             ClearAxis(nextUV.x, e.x, e.y, n, a, h, tipUV.x, other.x) && ClearAxis(nextUV.y, e.y, -e.x, n, a, h, tipUV.y, other.y)
    ensures var s, e, other := Minus2(tipUV, nextUV), Minus2(prevUV, nextUV), Mirror(nextUV, m, tipUV);
            Candidates(nextUV, prevUV, tip, next, prev) ==
              if Cross2(s, e) >= 0 then Some((RowOf(tipUV), RowOf(other))) else Some((RowOf(other), RowOf(tipUV)))
    ensures Int32(tipUV.x) && Int32(tipUV.y) ==> RowOf(tipUV) == [tipUV.x, tipUV.y]
  {
    if Int32(tipUV.x) && Int32(tipUV.y) {
      RowOfSmall(tipUV);
    }
    var t, d, s, e := Minus3(tip, next), Minus3(prev, next), Minus2(tipUV, nextUV), Minus2(prevUV, nextUV);
    var other := Mirror(nextUV, m, tipUV);
    hide Inner2, Inner3, Area, IntSqrt, Candidates, RowOf, FootAxis, Cross2, Similar;
    SimilarTip(t, d, s, e, h);
    var k := if Cross2(s, e) >= 0 then h else -h;
    NegatedAcross(k, e.x);
    NegatedAcross(h, e.y);
    NegatedAcross(h, -e.x);
    OnSides(nextUV.x, e.x, e.y, n, a, k, m.x, tipUV.x);
    OnSides(nextUV.y, e.y, -e.x, n, a, k, m.y, tipUV.y);
    if Cross2(s, e) >= 0 {
      CandidatesAre(nextUV, prevUV, tip, next, prev, n, a, q, h, tipUV, other);
    } else {
      CandidatesAre(nextUV, prevUV, tip, next, prev, n, a, q, h, other, tipUV);
    }
  }

  /** An edge from (0, 0) to (4, 0) and a tip at (0, 4), in space and in the texture. */
  ghost predicate ExampleTriangle(origin: Vec3, tip: Vec3, prev: Vec3, from: Vec2, to: Vec2, tipUV: Vec2, other: Vec2)
  {
    origin == Vec3(0, 0, 0) && tip == Vec3(0, 4, 0) && prev == Vec3(4, 0, 0) &&
    from == Vec2(0, 0) && to == Vec2(4, 0) && tipUV == Vec2(0, 4) && other == Vec2(0, -4)
  }

  /** The point below the edge is offered first, and then the tip. */
  lemma CandidatesExample(origin: Vec3, tip: Vec3, prev: Vec3, from: Vec2, to: Vec2, tipUV: Vec2, other: Vec2)
    requires ExampleTriangle(origin, tip, prev, from, to, tipUV, other)
    ensures Candidates(from, to, tip, origin, prev) == Some((RowOf(other), RowOf(tipUV)))
  {
    ExampleShapes(origin, tip, prev, from, to, tipUV, other);
    hide IntSqrt, Candidates, Measured, ClearAxis, Inner2, Inner3, Similar, Cross2, RowOf, Mirror, Minus2, Minus3;
    ExampleFoot(from, to, 16, 0);
    hide ExampleTriangle;
    SimilarCandidates(from, to, tipUV, tip, origin, prev, 16, 0, origin, 16, from);
  }

  lemma ExampleFoot(from: Vec2, to: Vec2, n: int, a: int)
    requires from == Vec2(0, 0) && a == 0
    ensures from.x * n == to.x * a && from.y * n == to.y * a
  {
  }

  lemma ExampleShapes(origin: Vec3, tip: Vec3, prev: Vec3, from: Vec2, to: Vec2, tipUV: Vec2, other: Vec2)
    requires ExampleTriangle(origin, tip, prev, from, to, tipUV, other)
    ensures Minus3(tip, origin) == tip && Minus3(prev, origin) == prev && Minus2(tipUV, from) == tipUV && Minus2(to, from) == to
    ensures Mirror(from, from, tipUV) == other
    ensures Similar(tip, prev, tipUV, to) && Inner2(to, to) > 0 && Cross2(tipUV, to) < 0 && Measured(to, origin, tip, prev, 16, 0, origin, 16)
    ensures ClearAxis(from.x, to.x, to.y, 16, 0, 16, tipUV.x, other.x) && ClearAxis(from.y, to.y, -to.x, 16, 0, 16, tipUV.y, other.y)
  {
    ExampleMeasures();
    ExampleIsClear();
    hide Measured, ClearAxis, Inner2, Inner3, Similar, Cross2, Mirror, Minus2, Minus3;
    MinusNothing(tip, tipUV);
    MinusNothing(prev, to);
    MirrorAtOrigin(tipUV, other);
  }

  lemma MirrorAtOrigin(v: Vec2, w: Vec2)
    requires w.x + v.x == 0 && w.y + v.y == 0
    ensures Mirror(Vec2(0, 0), Vec2(0, 0), v) == w
  {
  }

  lemma MinusNothing(u: Vec3, v: Vec2)
    ensures Minus3(u, Vec3(0, 0, 0)) == u && Minus2(v, Vec2(0, 0)) == v
  {
  }

  lemma InnerIs(u: Vec3, v: Vec3, x: int, y: int, z: int)
    requires u.x * v.x == x && u.y * v.y == y && u.z * v.z == z
    ensures Inner3(u, v) == x + y + z
  {
  }

  lemma FlatIs(u: Vec2, v: Vec2, x: int, y: int)
    requires u.x * v.x == x && u.y * v.y == y
    ensures Inner2(u, v) == x + y
  {
  }

  lemma ExampleProducts()
    ensures Inner3(Vec3(4, 0, 0), Vec3(4, 0, 0)) == 16 && Inner3(Vec3(0, 4, 0), Vec3(4, 0, 0)) == 0 && Inner3(Vec3(0, 4, 0), Vec3(0, 4, 0)) == 16
    ensures Inner2(Vec2(4, 0), Vec2(4, 0)) == 16 && Inner2(Vec2(0, 4), Vec2(4, 0)) == 0 && Inner2(Vec2(0, 4), Vec2(0, 4)) == 16
  {
    hide Inner3, Inner2;
    InnerIs(Vec3(4, 0, 0), Vec3(4, 0, 0), 16, 0, 0);
    InnerIs(Vec3(0, 4, 0), Vec3(4, 0, 0), 0, 0, 0);
    InnerIs(Vec3(0, 4, 0), Vec3(0, 4, 0), 0, 16, 0);
    FlatIs(Vec2(4, 0), Vec2(4, 0), 16, 0);
    FlatIs(Vec2(0, 4), Vec2(4, 0), 0, 0);
    FlatIs(Vec2(0, 4), Vec2(0, 4), 0, 16);
  }

  lemma ExampleCross()
    ensures Cross2(Vec2(0, 4), Vec2(4, 0)) == -16
  {
  }

  lemma ExampleMeasures()
    ensures Measured(Vec2(4, 0), Vec3(0, 0, 0), Vec3(0, 4, 0), Vec3(4, 0, 0), 16, 0, Vec3(0, 0, 0), 16)
    ensures Similar(Vec3(0, 4, 0), Vec3(4, 0, 0), Vec2(0, 4), Vec2(4, 0)) && Inner2(Vec2(4, 0), Vec2(4, 0)) == 16 && Cross2(Vec2(0, 4), Vec2(4, 0)) == -16
  {
    RootOf256();
    ExampleProducts();
    ExampleCross();
    hide IntSqrt, Inner2, Inner3, Cross2;
  }

  lemma ExampleIsClear()
    ensures ClearAxis(0, 4, 0, 16, 0, 16, 0, 0) && ClearAxis(0, 0, -4, 16, 0, 16, 4, -4)
  {
  }

  lemma RootOf256()
    ensures IntSqrt(256) == 16
  {
    assert FirstGuess(256) == 2 * FirstGuess(64) && FirstGuess(64) == 2 * FirstGuess(16) && FirstGuess(16) == 2 * FirstGuess(4) &&
           FirstGuess(4) == 2 * FirstGuess(1);
    IntSqrtExact(256);
    SquareMono(FloorSqrt(256) + 1, 16);
    SquareMono(17, FloorSqrt(256));
  }

  // ---- fallbacks and orientations ----------------------------------------------------------------------------

  /** Without both neighbours, or with positions that coincide, the next one's coordinate is taken, else the
      previous one's, else that of the entry before, else zeros. */
  lemma Fallbacks(t: TexContext, id: nat, next: nat, prev: nat, values: seq<Row>)
    requires Prediction.Rows(values, 2) && id <= |values|
    ensures next < id <= prev ==> PlanOf(t, id, next, prev, values) == Fixed(values[next])
    ensures prev < id <= next ==> PlanOf(t, id, next, prev, values) == Fixed(values[prev])
    ensures next >= id && prev >= id ==> PlanOf(t, id, next, prev, values) == Fixed(if id > 0 then values[id - 1] else [0, 0])
    ensures next < id && prev < id && UV(values, next) != UV(values, prev) ==>
              match (Position(t, id), Position(t, next), Position(t, prev))
              case (Some(a), Some(b), Some(c)) =>
                (match Candidates(UV(values, next), UV(values, prev), a, b, c)
                 case None => PlanOf(t, id, next, prev, values) == Fixed(values[next])
                 case Some((plus, minus)) => PlanOf(t, id, next, prev, values) == Choice(plus, minus))
              case _ => PlanOf(t, id, next, prev, values) == Fail
  {
    hide Candidates;
  }

  /** Where two candidates are left the last orientation is popped, and true stands for the first of them. */
  lemma LastPopped(t: TexContext, b: Bounds, correction: Row, before: seq<Row>, left: seq<bool>, orientation: bool)
    requires ValidTex(t) && Prediction.Rows(before, 2) && |correction| == 2 && PlanAt(t, |before|, before).Choice?
    ensures var plan := PlanAt(t, |before|, before);
            TexStep(t, b, correction, before, left + [orientation]) ==
              Some((before + [RestoreRow(b, if orientation then plan.plus else plan.minus, correction)], left)) &&
            TexStep(t, b, correction, before, []) == None
  {
    hide PlanAt, RestoreRow;
    assert (left + [orientation])[..|left|] == left;
  }

  /** A set bit repeats the orientation before, the first one being compared with true. */
  lemma {:induction false} BitsRepeat(bits: seq<bool>, last: bool, i: nat)
    requires i < |bits|
    ensures Unrepeated(bits, last)[i] == (bits[i] == if i == 0 then last else Unrepeated(bits, last)[i - 1])
    decreases |bits|
  {
    if i > 0 {
      BitsRepeat(bits[1..], if bits[0] then last else !last, i - 1);
    }
  }
}
