/** Texture coordinates predicted from positions (mesh_prediction_texcoord.go). Geometry leaves two
    candidates on either side of an edge; the encoder, going from the last entry to the first, pushes
    which one it took, and the decoder, going from the first, pops. */
module TexCoords {
  import opened Bits
  import opened Corners
  import opened Wrapping
  import opened Prediction
  import opened Stream
  import opened Rans
  import opened RansBit
  import CreaseFlags

  // ---- the integer square root --------------------------------------------------------------------

  /** The power of two that the iteration starts from. */
  function FirstGuess(v: nat): (g: nat)
    ensures g >= 1
  {
    if v < 2 then 1 else 2 * FirstGuess(v / 4)
  }

  /** The first guess is off by at most a factor of the square root of two. */
  lemma {:induction false} GuessBounds(v: nat)
    requires v > 0
    ensures v < 2 * FirstGuess(v) * FirstGuess(v) && FirstGuess(v) * FirstGuess(v) <= 2 * v
  {
    hide FirstGuess;
    if v >= 4 {
      GuessBounds(v / 4);
      GuessStep(v);
      Expand(FirstGuess(v / 4));
    } else if v >= 2 {
      GuessStep(v);
    } else {
      GuessStep(v);
    }
  }

  lemma GuessStep(v: nat)
    ensures v < 2 ==> FirstGuess(v) == 1
    ensures 2 <= v < 4 ==> FirstGuess(v) == 2
    ensures v >= 2 ==> FirstGuess(v) == 2 * FirstGuess(v / 4)
  {
  }

  lemma Expand(h: nat)
    ensures (2 * h) * (2 * h) == 4 * (h * h) && 2 * (2 * h) * (2 * h) == 8 * (h * h) && 2 * h * h == 2 * (h * h)
    ensures (2 * h + 1) * (2 * h + 1) == 4 * (h * h) + 4 * h + 1
    ensures (h + 1) * (h + 1) == h * h + 2 * h + 1 && (2 * h + 2) * (2 * h + 2) == 4 * (h * h) + 8 * h + 4
  {
  }

  function FloorSqrt(v: nat): (r: nat)
    ensures r * r <= v < (r + 1) * (r + 1)
  {
    if v == 0 then 0
    else
      var h := FloorSqrt(v / 4);
      Expand(h);
      if (2 * h + 1) * (2 * h + 1) <= v then 2 * h + 1 else 2 * h
  }

  /** What intSqrt returns: a first guess that is not too large is kept. */
  function IntSqrt(v: nat): nat
  {
    if v > 0 && FirstGuess(v) <= FloorSqrt(v) then FirstGuess(v) else FloorSqrt(v)
  }

  lemma SquareMono(a: nat, b: nat)
    ensures a <= b <==> a * a <= b * b
  {
    if a <= b {
      assert a * a <= a * b <= b * b;
    } else {
      assert b * b <= a * b && a * b < a * a;
    }
  }

  /** intSqrt never exceeds the root, and is the root rounded down exactly when the value is below
      the square after its first guess's. */
  lemma IntSqrtExact(v: nat)
    ensures IntSqrt(v) * IntSqrt(v) <= v
    ensures v > 0 ==> (IntSqrt(v) == FloorSqrt(v) <==> v < (FirstGuess(v) + 1) * (FirstGuess(v) + 1))
  {
    var r, g := FloorSqrt(v), FirstGuess(v);
    SquareMono(g, r);
    SquareMono(g + 1, r);
    SquareMono(r + 1, g + 1);
  }

  /** The root of 31 comes out as 4. */
  lemma IntSqrtShort()
    ensures IntSqrt(31) == 4 && FloorSqrt(31) == 5
  {
    assert FirstGuess(31) == 2 * FirstGuess(7) && FirstGuess(7) == 2 * FirstGuess(1);
    SquareMono(FloorSqrt(31) + 1, 5);
    SquareMono(6, FloorSqrt(31));
  }

  /** A Newton step from above the root stays at or above it and goes down; from the root or below
      it does not go down. */
  lemma NewtonStep(v: nat, s: nat)
    requires s > 0
    ensures s > FloorSqrt(v) ==> FloorSqrt(v) <= (s + v / s) / 2 < s
    ensures s <= FloorSqrt(v) ==> (s + v / s) / 2 >= s
  {
    hide FloorSqrt;
    if s > FloorSqrt(v) {
      Above(FloorSqrt(v), s, v);
    } else {
      SquareMono(s, FloorSqrt(v));
      Quotient(v, s, s);
    }
  }

  lemma Quotient(v: nat, s: nat, k: int)
    requires s > 0 && k * s <= v
    ensures v / s >= k
  {
    var d := v / s;
    assert v < (d + 1) * s;
    if d + 1 <= k {
      MulMono(d + 1, k, s);
    }
  }

  lemma Above(r: nat, s: nat, v: nat)
    requires s > r && r * r <= v < (r + 1) * (r + 1)
    ensures r <= (s + v / s) / 2 < s
  {
    MeanBelow(r, s);
    Quotient(v, s, 2 * r - s);
    SquareMono(r + 1, s);
    DivBelow(v, s, s);
  }

  lemma MeanBelow(r: int, s: int)
    ensures (2 * r - s) * s <= r * r
  {
    assert (2 * r - s) * s + (s - r) * (s - r) == r * r;
  }

  lemma DivBelow(v: nat, s: nat, k: nat)
    requires s > 0 && v < k * s
    ensures v / s < k
  {
    if v / s >= k {
      MulMono(k, v / s, s);
    }
  }

  // ---- 64-bit geometry ---------------------------------------------------------------------------

  function S64(x: int): int
  {
    (x + 0x8000_0000_0000_0000) % 0x1_0000_0000_0000_0000 - 0x8000_0000_0000_0000
  }

  function U64(x: int): nat
  {
    x % 0x1_0000_0000_0000_0000
  }

  datatype Vec2 = Vec2(x: int, y: int)
  datatype Vec3 = Vec3(x: int, y: int, z: int)

  function Add2(a: Vec2, b: Vec2): Vec2 { Vec2(S64(a.x + b.x), S64(a.y + b.y)) }
  function Sub2(a: Vec2, b: Vec2): Vec2 { Vec2(S64(a.x - b.x), S64(a.y - b.y)) }
  function Scale2(a: Vec2, k: int): Vec2 { Vec2(S64(a.x * k), S64(a.y * k)) }
  function Div64(a: int, k: int): int { if k == 0 then 0 else S64(TruncDiv(a, k)) }
  function Div2(a: Vec2, k: int): Vec2 { Vec2(Div64(a.x, k), Div64(a.y, k)) }
  function Add3(a: Vec3, b: Vec3): Vec3 { Vec3(S64(a.x + b.x), S64(a.y + b.y), S64(a.z + b.z)) }
  function Sub3(a: Vec3, b: Vec3): Vec3 { Vec3(S64(a.x - b.x), S64(a.y - b.y), S64(a.z - b.z)) }
  function Scale3(a: Vec3, k: int): Vec3 { Vec3(S64(a.x * k), S64(a.y * k), S64(a.z * k)) }
  function Div3(a: Vec3, k: int): Vec3 { Vec3(Div64(a.x, k), Div64(a.y, k), Div64(a.z, k)) }
  function Dot3(a: Vec3, b: Vec3): int { S64(a.x * b.x + a.y * b.y + a.z * b.z) }
  function Norm3(a: Vec3): nat { U64(a.x * a.x + a.y * a.y + a.z * a.z) }

  function RowOf(a: Vec2): (r: Row)
    ensures |r| == 2
  {
    [S32(a.x), S32(a.y)]
  }

  /** The two candidates for the tip of a triangle over the edge from next to prev; None when
      the edge has no length. */
  function Candidates(nextUV: Vec2, prevUV: Vec2, tip: Vec3, next: Vec3, prev: Vec3): (o: Option<(Row, Row)>)
    ensures o.Some? ==> |o.value.0| == 2 && |o.value.1| == 2
  {
    var pn := Sub3(prev, next);
    var norm := Norm3(pn);
    if norm == 0 then None
    else
      var divisor := S64(norm);
      var along := Dot3(Sub3(tip, next), pn);
      var pnUV := Sub2(prevUV, nextUV);
      var xUV := Add2(Scale2(nextUV, divisor), Scale2(pnUV, along));
      var xPos := Add3(next, Div3(Scale3(pn, along), divisor));
      var height := IntSqrt(U64(Norm3(Sub3(tip, xPos)) * norm));
      var cxUV := Scale2(Vec2(pnUV.y, S64(-pnUV.x)), S64(height));
      Some((RowOf(Div2(Add2(xUV, cxUV), divisor)), RowOf(Div2(Sub2(xUV, cxUV), divisor))))
  }

  // ---- what is predicted ---------------------------------------------------------------------------

  /** The corner table and the position of each entry, None where it cannot be read. */
  datatype TexContext = TexContext(ctx: Context, positions: seq<Option<Vec3>>)

  ghost predicate ValidTex(t: TexContext)
  {
    Valid(t.ctx) && |t.positions| == |t.ctx.dataToCorner| && forall p :: 0 <= p < |t.ctx.vertexToData| ==> t.ctx.vertexToData[p] >= 0
  }

  function Position(t: TexContext, id: nat): Option<Vec3>
  {
    if id < |t.positions| then t.positions[id] else None
  }

  /** A prediction fails, is one row, or is to be chosen out of two. */
  datatype Plan = Fail | Fixed(row: Row) | Choice(plus: Row, minus: Row)

  function UV(values: seq<Row>, id: nat): Vec2
    requires Rows(values, 2) && id < |values|
  {
    Vec2(values[id][0], values[id][1])
  }

  predicate PlanRows(p: Plan)
  {
    match p
    case Fail => true
    case Fixed(row) => |row| == 2
    case Choice(plus, minus) => |plus| == 2 && |minus| == 2
  }

  /** Falls back on the next entry, else the previous one of the triangle, else the entry before. */
  function Nearby(id: nat, next: nat, prev: nat, values: seq<Row>): (r: Row)
    requires Rows(values, 2) && id <= |values|
    ensures |r| == 2
  {
    if next < id then values[next] else if prev < id then values[prev] else if id > 0 then values[id - 1] else [0, 0]
  }

  function PlanOf(t: TexContext, id: nat, next: nat, prev: nat, values: seq<Row>): (p: Plan)
    requires Rows(values, 2) && id <= |values|
    ensures PlanRows(p)
  {
    hide Candidates;
    if prev < id && next < id then
      var nextUV, prevUV := UV(values, next), UV(values, prev);
      if nextUV == prevUV then Fixed(RowOf(prevUV))
      else
        match (Position(t, id), Position(t, next), Position(t, prev))
        case (Some(a), Some(b), Some(c)) =>
          (match Candidates(nextUV, prevUV, a, b, c)
           case None => Fixed(Nearby(id, next, prev, values))
           case Some((plus, minus)) => Choice(plus, minus))
        case _ => Fail
    else Fixed(Nearby(id, next, prev, values))
  }

  function PlanAt(t: TexContext, id: nat, values: seq<Row>): (p: Plan)
    requires ValidTex(t) && Rows(values, 2) && id <= |values|
    ensures PlanRows(p)
  {
    hide PlanOf;
    if id >= |t.ctx.dataToCorner| || t.ctx.dataToCorner[id] < 0 then Fail
    else
      var c := t.ctx.dataToCorner[id];
      RotateBelow(c, |t.ctx.opposite| / 3);
      PlanOf(t, id, EntryAt(t.ctx, Next(c)), EntryAt(t.ctx, Previous(c)), values)
  }

  /** Only rows before the entry matter. */
  lemma PlanLooksBack(t: TexContext, id: nat, a: seq<Row>, b: seq<Row>)
    requires ValidTex(t) && Rows(a, 2) && Rows(b, 2) && id <= |a| && id <= |b| && a[..id] == b[..id]
    ensures PlanAt(t, id, a) == PlanAt(t, id, b)
  {
    hide PlanOf;
    if id < |t.ctx.dataToCorner| && t.ctx.dataToCorner[id] >= 0 {
      var c := t.ctx.dataToCorner[id];
      RotateBelow(c, |t.ctx.opposite| / 3);
      PlanOfLooksBack(t, id, EntryAt(t.ctx, Next(c)), EntryAt(t.ctx, Previous(c)), a, b);
    }
  }

  lemma PlanOfLooksBack(t: TexContext, id: nat, next: nat, prev: nat, a: seq<Row>, b: seq<Row>)
    requires Rows(a, 2) && Rows(b, 2) && id <= |a| && id <= |b| && a[..id] == b[..id]
    ensures PlanOf(t, id, next, prev, a) == PlanOf(t, id, next, prev, b)
  {
    hide Candidates;
    assert forall k :: 0 <= k < id ==> a[..id][k] == a[k] && b[..id][k] == b[k];
    assert forall k :: 0 <= k < id ==> a[k] == b[k];
  }

  // ---- corrections, orientations and back --------------------------------------------------------------

  function Picked(p: Plan, pick: bool): (r: Row)
    requires PlanRows(p)
    ensures |r| == 2
  {
    match p
    case Fail => [0, 0]
    case Fixed(row) => row
    case Choice(plus, minus) => if pick then plus else minus
  }

  ghost predicate Sound(t: TexContext, values: seq<Row>)
    requires ValidTex(t) && Rows(values, 2)
  {
    forall id :: 0 <= id < |values| ==> !PlanAt(t, id, values).Fail?
  }

  ghost function TexCorrections(t: TexContext, b: Bounds, values: seq<Row>, picks: seq<bool>): (r: seq<Row>)
    requires ValidTex(t) && Rows(values, 2) && |picks| == |values|
    ensures |r| == |values| && Rows(r, 2)
  {
    seq(|values|, id requires 0 <= id < |values| => CorrectRow(b, values[id], Picked(PlanAt(t, id, values), picks[id])))
  }

  /** What is pushed for the entries from the last one down to id. */
  ghost function Orientations(t: TexContext, values: seq<Row>, picks: seq<bool>, id: nat): seq<bool>
    requires ValidTex(t) && Rows(values, 2) && |picks| == |values|
    decreases |values| - id
  {
    if id >= |values| then []
    else Orientations(t, values, picks, id + 1) + if PlanAt(t, id, values).Choice? then [picks[id]] else []
  }

  /** Rows restored in order and the orientations that are left; None when a lookup fails or the
      orientations run out. */
  ghost function TexRebuilt(t: TexContext, b: Bounds, corrections: seq<Row>, orientations: seq<bool>): (o: Option<(seq<Row>, seq<bool>)>)
    requires ValidTex(t) && Rows(corrections, 2)
    ensures o.Some? ==> |o.value.0| == |corrections| && Rows(o.value.0, 2)
    decreases |corrections|
  {
    if corrections == [] then Some(([], orientations))
    else
      match TexRebuilt(t, b, corrections[..|corrections| - 1], orientations)
      case None => None
      case Some((before, left)) => TexStep(t, b, corrections[|corrections| - 1], before, left)
  }

  ghost function TexStep(t: TexContext, b: Bounds, correction: Row, before: seq<Row>, left: seq<bool>): (o: Option<(seq<Row>, seq<bool>)>)
    requires ValidTex(t) && Rows(before, 2) && |correction| == 2
    ensures o.Some? ==> |o.value.0| == |before| + 1 && Rows(o.value.0, 2)
  {
    hide PlanAt;
    var plan := PlanAt(t, |before|, before);
    if plan.Fail? || (plan.Choice? && left == []) then None
    else if plan.Choice? then
      Some((before + [RestoreRow(b, Picked(plan, left[|left| - 1]), correction)], left[..|left| - 1]))
    else
      Some((before + [RestoreRow(b, Picked(plan, false), correction)], left))
  }

  lemma {:induction false} TexPrefix(t: TexContext, b: Bounds, values: seq<Row>, picks: seq<bool>, k: nat)
    requires ValidTex(t) && Rows(values, 2) && |picks| == |values| && k <= |values| && Sound(t, values)
    requires ValidBounds(b) && Fits(b) && forall i :: 0 <= i < |values| ==> RowInside(b, values[i])
    ensures TexRebuilt(t, b, TexCorrections(t, b, values, picks)[..k], Orientations(t, values, picks, 0)) ==
            Some((values[..k], Orientations(t, values, picks, k)))
    decreases k
  {
    hide PlanAt, CorrectRow, RestoreRow, RowInside, Fits, ValidBounds, ValidTex, TexStep, TexCorrections, Orientations;
    var corrections := TexCorrections(t, b, values, picks);
    if k > 0 {
      var last := k - 1;
      TexPrefix(t, b, values, picks, last);
      assert corrections[..k][..last] == corrections[..last] && corrections[..k][last] == corrections[last];
      TexStepBack(t, b, values, picks, last);
    }
  }

  lemma TexStepBack(t: TexContext, b: Bounds, values: seq<Row>, picks: seq<bool>, id: nat)
    requires ValidTex(t) && Rows(values, 2) && |picks| == |values| && id < |values| && Sound(t, values)
    requires ValidBounds(b) && Fits(b) && RowInside(b, values[id])
    ensures TexStep(t, b, TexCorrections(t, b, values, picks)[id], values[..id], Orientations(t, values, picks, id)) ==
            Some((values[..id + 1], Orientations(t, values, picks, id + 1)))
  {
    hide PlanAt, CorrectRow, RestoreRow, RowInside, Fits, ValidBounds, ValidTex;
    var rest := Orientations(t, values, picks, id + 1);
    PlanLooksBack(t, id, values[..id], values);
    var plan := PlanAt(t, id, values);
    assert !plan.Fail?;
    RowRestored(b, values[id], Picked(plan, picks[id]));
    assert values[..id + 1] == values[..id] + [values[id]];
    if plan.Choice? {
      assert (rest + [picks[id]])[..|rest|] == rest;
    } else {
      assert rest + [] == rest;
      assert Picked(plan, false) == Picked(plan, picks[id]);
    }
  }

  /** Whatever candidates the encoder picks, the decoder restores the values and pops every
      orientation. */
  lemma TexRoundTrip(t: TexContext, b: Bounds, values: seq<Row>, picks: seq<bool>)
    requires ValidTex(t) && Rows(values, 2) && |picks| == |values| && Sound(t, values)
    requires ValidBounds(b) && Fits(b) && forall i :: 0 <= i < |values| ==> RowInside(b, values[i])
    ensures TexRebuilt(t, b, TexCorrections(t, b, values, picks), Orientations(t, values, picks, 0)) == Some((values, []))
  {
    hide TexRebuilt, PlanAt;
    var corrections := TexCorrections(t, b, values, picks);
    TexPrefix(t, b, values, picks, |values|);
    assert corrections[..|values|] == corrections && values[..|values|] == values;
  }

  // ---- orientation bytes --------------------------------------------------------------------------------

  /** Each orientation as whether it repeats the one before. */
  function Repeats(orientations: seq<bool>, last: bool): (r: seq<bool>)
    ensures |r| == |orientations|
  {
    if orientations == [] then [] else [orientations[0] == last] + Repeats(orientations[1..], orientations[0])
  }

  function Unrepeated(bits: seq<bool>, last: bool): (r: seq<bool>)
    ensures |r| == |bits|
  {
    if bits == [] then []
    else
      var orientation := if bits[0] then last else !last;
      [orientation] + Unrepeated(bits[1..], orientation)
  }

  lemma {:induction false} RepeatsRoundTrip(orientations: seq<bool>, last: bool)
    ensures Unrepeated(Repeats(orientations, last), last) == orientations
    decreases |orientations|
  {
    if orientations != [] {
      RepeatsRoundTrip(orientations[1..], orientations[0]);
    }
  }

  function OrientationBytes(orientations: seq<bool>, p0: nat): seq<byte>
    requires ZeroProb(p0)
  {
    LeBytes(U32(|orientations|), 4) + BitStream(p0, Repeats(orientations, true))
  }

  function ReadOrientations(r: seq<byte>): Option<(seq<bool>, seq<byte>)>
  {
    match ReadUint32(r)
    case None => None
    case Some((count, rest)) =>
      if count >= 0x8000_0000 then None
      else
        match OpenBits(rest)
        case None => None
        case Some((p0, s, after)) => Some((Unrepeated(DecodeBits(s, p0, count).0, true), after))
  }

  /** The encoder refuses more orientations than an int32 can count. */
  lemma OrientationsRoundTrip(orientations: seq<bool>, p0: nat, suffix: seq<byte>)
    requires ZeroProb(p0) && |orientations| < 0x8000_0000
    ensures ReadOrientations(OrientationBytes(orientations, p0) + suffix) == Some((orientations, suffix))
  {
    hide BitStream, OpenBits, LeBytes, ReadUint32, DecodeBits, Repeats, Unrepeated;
    var bits := Repeats(orientations, true);
    assert OrientationBytes(orientations, p0) + suffix == LeBytes(|orientations|, 4) + (BitStream(p0, bits) + suffix);
    Uint32RoundTrip(|orientations|, BitStream(p0, bits) + suffix);
    CreaseFlags.BitsOpen(p0, bits, suffix);
    RepeatsRoundTrip(orientations, true);
  }
}
