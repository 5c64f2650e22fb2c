/** Predicting attribute entries from earlier ones across a mesh (mesh_prediction.go). Entries are
    rows of n components; a predictor may only look at rows before the one it predicts. */
module Prediction {
  import opened Bits
  import opened Corners
  import opened Wrapping

  // ---- corners around an entry ---------------------------------------------------------------

  ghost predicate StopsLeft(opp: seq<int>, walk: seq<int>)
    requires Matching(opp) && LeftWalk(opp, walk)
  {
    SwingLeft(opp, walk[|walk| - 1]) < 0 || SwingLeft(opp, walk[|walk| - 1]) == walk[0]
  }

  ghost predicate StopsRight(opp: seq<int>, walk: seq<int>)
    requires Matching(opp) && RightWalk(opp, walk)
  {
    SwingRight(opp, walk[|walk| - 1]) < 0 || SwingRight(opp, walk[|walk| - 1]) == walk[0]
  }

  /** Swings left until there is no corner or the first one comes back. */
  ghost function LeftFrom(opp: seq<int>, walk: seq<int>): (r: seq<int>)
    requires Matching(opp) && LeftWalk(opp, walk)
    ensures LeftWalk(opp, r) && walk <= r && StopsLeft(opp, r)
    decreases |opp| - |walk|
  {
    var next := SwingLeft(opp, walk[|walk| - 1]);
    if next < 0 || next == walk[0] then
      walk
    else
      LeftWalkOn(opp, walk, next);
      LeftFrom(opp, walk + [next])
  }

  ghost function RightFrom(opp: seq<int>, walk: seq<int>): (r: seq<int>)
    requires Matching(opp) && RightWalk(opp, walk)
    ensures RightWalk(opp, r) && walk <= r && StopsRight(opp, r)
    decreases |opp| - |walk|
  {
    var next := SwingRight(opp, walk[|walk| - 1]);
    if next < 0 || next == walk[0] then
      walk
    else
      RightWalkOn(opp, walk, next);
      RightFrom(opp, walk + [next])
  }

  lemma SingleWalk(opp: seq<int>, c: nat)
    requires Matching(opp) && c < |opp|
    ensures LeftWalk(opp, [c]) && RightWalk(opp, [c])
  {
  }

  /** The order in which corners are visited: to the left and, if that ends at a boundary,
      then to the right of the start. */
  ghost function Visits(opp: seq<int>, start: nat): seq<int>
    requires Matching(opp) && start < |opp|
  {
    SingleWalk(opp, start);
    var left := LeftFrom(opp, [start]);
    if SwingLeft(opp, left[|left| - 1]) >= 0 then left else left + RightFrom(opp, [start])[1..]
  }

  lemma WalkStep(opp: seq<int>, right: seq<int>, left: seq<int>, j: nat, i: nat)
    requires Matching(opp) && LeftWalk(opp, left) && RightWalk(opp, right)
    ensures j < |right| - 1 ==> SwingRight(opp, right[j]) == right[j + 1]
    ensures i < |left| - 1 ==> SwingLeft(opp, left[i]) == left[i + 1]
  {
  }

  lemma {:induction false} SidesApart(opp: seq<int>, left: seq<int>, right: seq<int>, i: nat, j: nat)
    requires Matching(opp) && LeftWalk(opp, left) && RightWalk(opp, right) && left[0] == right[0]
    requires SwingLeft(opp, left[|left| - 1]) < 0 && i < |left| && 1 <= j < |right|
    ensures left[i] != right[j]
    decreases j
  {
    hide SwingLeft, SwingRight;
    SwingInverse(opp, right[j - 1]);
    WalkStep(opp, right, left, j - 1, 0);
    if i < |left| - 1 {
      WalkStep(opp, right, left, 0, i);
      if j > 1 {
        SidesApart(opp, left, right, i + 1, j - 1);
      }
    }
  }

  lemma VisitsParts(opp: seq<int>, start: nat, c: int)
    requires Matching(opp) && start < |opp|
    ensures LeftWalk(opp, [start]) && RightWalk(opp, [start])
    ensures var left := LeftFrom(opp, [start]);
            var atBoundary := SwingLeft(opp, left[|left| - 1]) < 0;
            c in Visits(opp, start) <==> c in left || (atBoundary && c in RightFrom(opp, [start]))
  {
    SingleWalk(opp, start);
    var right := RightFrom(opp, [start]);
    assert right == [right[0]] + right[1..];
  }

  /** A walk is left only at its end. */
  lemma LeftOfWalk(opp: seq<int>, walk: seq<int>, c: nat)
    requires Matching(opp) && LeftWalk(opp, walk) && StopsLeft(opp, walk) && c in walk
    ensures SwingLeft(opp, c) >= 0 ==> SwingLeft(opp, c) in walk
    ensures SwingRight(opp, c) >= 0 && (c != walk[0] || SwingLeft(opp, walk[|walk| - 1]) >= 0) ==> SwingRight(opp, c) in walk
  {
    hide SwingLeft, SwingRight;
    var i :| 0 <= i < |walk| && walk[i] == c;
    SingleWalk(opp, c);
    WalkStep(opp, [c], walk, 0, i);
    if i > 0 {
      SwingInverse(opp, walk[i - 1]);
      WalkStep(opp, [c], walk, 0, i - 1);
    } else {
      SwingInverse(opp, walk[|walk| - 1]);
    }
  }

  lemma RightOfWalk(opp: seq<int>, walk: seq<int>, c: nat)
    requires Matching(opp) && RightWalk(opp, walk) && StopsRight(opp, walk) && c in walk
    ensures SwingRight(opp, c) >= 0 ==> SwingRight(opp, c) in walk
    ensures SwingLeft(opp, c) >= 0 && c != walk[0] ==> SwingLeft(opp, c) in walk
  {
    hide SwingLeft, SwingRight;
    var i :| 0 <= i < |walk| && walk[i] == c;
    SingleWalk(opp, c);
    WalkStep(opp, walk, [c], i, 0);
    if i > 0 {
      SwingInverse(opp, walk[i - 1]);
      WalkStep(opp, walk, [c], i - 1, 0);
    }
  }

  lemma VisitsClosed(opp: seq<int>, start: nat, c: nat)
    requires Matching(opp) && start < |opp| && c in Visits(opp, start)
    ensures SwingLeft(opp, c) >= 0 ==> SwingLeft(opp, c) in Visits(opp, start)
    ensures SwingRight(opp, c) >= 0 ==> SwingRight(opp, c) in Visits(opp, start)
  {
    hide SwingLeft, SwingRight, Visits;
    SingleWalk(opp, start);
    var left, right := LeftFrom(opp, [start]), RightFrom(opp, [start]);
    VisitsParts(opp, start, c);
    VisitsParts(opp, start, SwingLeft(opp, c));
    VisitsParts(opp, start, SwingRight(opp, c));
    if c in left {
      LeftOfWalk(opp, left, c);
    } else {
      RightOfWalk(opp, right, c);
    }
    RightOfWalk(opp, right, start);
  }

  /** Every corner of the start's fan is visited exactly once, and no other corner. */
  lemma VisitsFan(opp: seq<int>, start: nat)
    requires Matching(opp) && start < |opp|
    ensures Distinct(Visits(opp, start), |opp|)
    ensures forall c :: c in Visits(opp, start) <==> Linked(opp, start, c)
  {
    hide SwingLeft, SwingRight;
    SingleWalk(opp, start);
    var left, right := LeftFrom(opp, [start]), RightFrom(opp, [start]);
    forall i, j | 0 <= i < |left| && 1 <= j < |right| && SwingLeft(opp, left[|left| - 1]) < 0
      ensures left[i] != right[j]
    {
      SidesApart(opp, left, right, i, j);
    }
    forall c
      ensures c in Visits(opp, start) <==> Linked(opp, start, c)
    {
      if c in Visits(opp, start) {
        VisitedLinked(opp, start, c);
      } else if Linked(opp, start, c) {
        LinkedVisited(opp, start, c);
      }
    }
  }

  lemma VisitedLinked(opp: seq<int>, start: nat, c: int)
    requires Matching(opp) && start < |opp| && c in Visits(opp, start)
    ensures Linked(opp, start, c)
  {
    hide SwingLeft, SwingRight, Linked, Visits;
    VisitsParts(opp, start, c);
    var left, right := LeftFrom(opp, [start]), RightFrom(opp, [start]);
    if c in left {
      var i :| 0 <= i < |left| && left[i] == c;
      LeftWalkLinked(opp, left, i);
    } else {
      var i :| 0 <= i < |right| && right[i] == c;
      RightWalkLinked(opp, right, i);
    }
  }

  lemma LinkedVisited(opp: seq<int>, start: nat, c: int)
    requires Matching(opp) && start < |opp| && Linked(opp, start, c)
    ensures c in Visits(opp, start)
  {
    hide SwingLeft, SwingRight, Linked, Visits;
    var visits := Visits(opp, start);
    var mark := seq(|opp|, k requires 0 <= k < |opp| => if k in visits then 1 else 0);
    forall k | 0 <= k < |opp| && SwingRight(opp, k) >= 0
      ensures SwingRight(opp, k) < |opp| && mark[SwingRight(opp, k)] == mark[k]
    {
      SwingInverse(opp, k);
      if k in visits {
        VisitsClosed(opp, start, k);
      }
      if SwingRight(opp, k) in visits {
        VisitsClosed(opp, start, SwingRight(opp, k));
      }
    }
    VisitsParts(opp, start, start);
    ConstantOnFans(opp, mark, start, c);
  }

  // ---- parallelograms --------------------------------------------------------------------------

  /** The corner table, each vertex's entry, and a corner of each entry (-1 if it has none). */
  datatype Context = Context(opposite: seq<int>, vertex: seq<int>, vertexToData: seq<int>, dataToCorner: seq<int>)

  ghost predicate Valid(ctx: Context)
  {
    Matching(ctx.opposite) && |ctx.vertex| == |ctx.opposite| &&
    (forall c :: 0 <= c < |ctx.vertex| ==> 0 <= ctx.vertex[c] < |ctx.vertexToData|) &&
    forall e :: 0 <= e < |ctx.dataToCorner| ==> -1 <= ctx.dataToCorner[e] < |ctx.opposite|
  }

  /** Three known entries that span a parallelogram with the predicted one at its far tip. */
  datatype Flap = Flap(tip: nat, next: nat, prev: nat)

  function EntryAt(ctx: Context, c: nat): int
    requires Valid(ctx) && c < |ctx.opposite|
  {
    ctx.vertexToData[ctx.vertex[c]]
  }

  function FlapAt(ctx: Context, id: nat, corner: nat): (r: Option<Flap>)
    requires Valid(ctx) && corner < |ctx.opposite|
    ensures r.Some? ==> r.value.tip < id && r.value.next < id && r.value.prev < id
  {
    var o := ctx.opposite[corner];
    if o < 0 then None
    else
      RotateBelow(o, |ctx.opposite| / 3);
      var tip, next, prev := EntryAt(ctx, o), EntryAt(ctx, Next(o)), EntryAt(ctx, Previous(o));
      if tip < 0 || next < 0 || prev < 0 || tip >= id || next >= id || prev >= id then None else Some(Flap(tip, next, prev))
  }

  /** The parallelograms at the given corners, in order. */
  function FlapsAt(ctx: Context, id: nat, corners: seq<int>): (r: seq<Flap>)
    requires Valid(ctx) && forall i :: 0 <= i < |corners| ==> 0 <= corners[i] < |ctx.opposite|
    ensures Before(r, id)
  {
    if corners == [] then []
    else
      var last := |corners| - 1;
      FlapsAt(ctx, id, corners[..last]) + (match FlapAt(ctx, id, corners[last]) case None => [] case Some(f) => [f])
  }

  predicate Before(flaps: seq<Flap>, id: nat)
  {
    forall i :: 0 <= i < |flaps| ==> flaps[i].tip < id && flaps[i].next < id && flaps[i].prev < id
  }

  const MAX_FLAPS: nat := 4

  /** The first four parallelograms around an entry; they do not depend on any value. */
  ghost function Flaps(ctx: Context, id: nat): (r: seq<Flap>)
    requires Valid(ctx)
    ensures Before(r, id) && |r| <= MAX_FLAPS
  {
    if id >= |ctx.dataToCorner| || ctx.dataToCorner[id] < 0 then []
    else
      VisitsFan(ctx.opposite, ctx.dataToCorner[id]);
      Limited(FlapsAt(ctx, id, Visits(ctx.opposite, ctx.dataToCorner[id])), MAX_FLAPS)
  }

  function Limited<T>(s: seq<T>, limit: nat): (r: seq<T>)
    ensures r <= s && |r| <= limit
  {
    if |s| > limit then s[..limit] else s
  }

  // ---- predicted rows ----------------------------------------------------------------------------

  predicate Rows(values: seq<Row>, n: nat)
  {
    forall i :: 0 <= i < |values| ==> |values[i]| == n
  }

  function ZeroRow(n: nat): (r: Row)
    ensures |r| == n && forall i :: 0 <= i < n ==> r[i] == 0
  {
    seq(n, _ => 0)
  }

  function Plus(a: Row, b: Row): (r: Row)
    requires |a| == |b|
    ensures |r| == |a|
  {
    seq(|a|, i requires 0 <= i < |a| => S32(a[i] + b[i]))
  }

  function Divided(a: Row, count: nat): (r: Row)
    requires count > 0
    ensures |r| == |a|
  {
    seq(|a|, i requires 0 <= i < |a| => TruncDiv(a[i], count))
  }

  /** One parallelogram's guess: next + prev - tip, wrapping around. */
  function Extrapolated(f: Flap, values: seq<Row>, n: nat): (r: Row)
    requires Rows(values, n) && f.tip < |values| && f.next < |values| && f.prev < |values|
    ensures |r| == n
  {
    seq(n, i requires 0 <= i < n => S32(values[f.next][i] + values[f.prev][i] - values[f.tip][i]))
  }

  /** Wrapping sum over the parallelograms that the mask selects. */
  function Total(flaps: seq<Flap>, mask: seq<bool>, values: seq<Row>, n: nat): (r: Row)
    requires |mask| == |flaps| && Rows(values, n) && Before(flaps, |values|)
    ensures |r| == n
  {
    if flaps == [] then ZeroRow(n)
    else
      var last := |flaps| - 1;
      var sum := Total(flaps[..last], mask[..last], values, n);
      if mask[last] then Plus(sum, Extrapolated(flaps[last], values, n)) else sum
  }

  function Ones(mask: seq<bool>): (k: nat)
    ensures k <= |mask|
  {
    if mask == [] then 0 else Ones(mask[..|mask| - 1]) + if mask[|mask| - 1] then 1 else 0
  }

  function AllTrue(k: nat): (r: seq<bool>)
    ensures |r| == k
  {
    seq(k, _ => true)
  }

  /** Average over the selected parallelograms; the previous row if there are none. */
  function Averaged(flaps: seq<Flap>, mask: seq<bool>, previous: Row, values: seq<Row>, n: nat): (r: Row)
    requires |mask| == |flaps| && Rows(values, n) && Before(flaps, |values|) && |previous| == n
    ensures |r| == n
  {
    if Ones(mask) == 0 then previous else Divided(Total(flaps, mask, values, n), Ones(mask))
  }

  /** Prediction methods; Chosen has one mask per entry. */
  datatype Kind = Difference | First | Average | Chosen(masks: seq<seq<bool>>)

  ghost predicate Suits(ctx: Context, kind: Kind, entries: nat)
    requires Valid(ctx)
  {
    kind.Chosen? ==> |kind.masks| == entries && forall id :: 1 <= id < entries ==> |kind.masks[id]| == |Flaps(ctx, id)|
  }

  ghost function Predicted(ctx: Context, kind: Kind, id: nat, values: seq<Row>, n: nat): (r: Row)
    requires Valid(ctx) && Rows(values, n) && id <= |values|
    requires kind.Chosen? && id > 0 ==> id < |kind.masks| && |kind.masks[id]| == |Flaps(ctx, id)|
    ensures |r| == n
  {
    if id == 0 then ZeroRow(n)
    else
      var flaps := Flaps(ctx, id);
      match kind
      case Difference => values[id - 1]
      case First => if flaps == [] then values[id - 1] else Extrapolated(flaps[0], values, n)
      case Average => Averaged(flaps, AllTrue(|flaps|), values[id - 1], values, n)
      case Chosen(masks) => Averaged(flaps, masks[id], values[id - 1], values, n)
  }

  lemma {:induction false} TotalLooksBack(flaps: seq<Flap>, mask: seq<bool>, id: nat, a: seq<Row>, b: seq<Row>, n: nat)
    requires |mask| == |flaps| && Rows(a, n) && Rows(b, n) && Before(flaps, id)
    requires id <= |a| && id <= |b| && a[..id] == b[..id]
    ensures Total(flaps, mask, a, n) == Total(flaps, mask, b, n)
    decreases |flaps|
  {
    if flaps != [] {
      var last := |flaps| - 1;
      TotalLooksBack(flaps[..last], mask[..last], id, a, b, n);
      ExtrapolatedLooksBack(flaps[last], id, a, b, n);
    }
  }

  lemma ExtrapolatedLooksBack(f: Flap, id: nat, a: seq<Row>, b: seq<Row>, n: nat)
    requires Rows(a, n) && Rows(b, n) && f.tip < id && f.next < id && f.prev < id
    requires id <= |a| && id <= |b| && a[..id] == b[..id]
    ensures Extrapolated(f, a, n) == Extrapolated(f, b, n)
  {
    assert forall k :: 0 <= k < id ==> a[..id][k] == a[k] && b[..id][k] == b[k];
    assert a[f.tip] == b[f.tip] && a[f.next] == b[f.next] && a[f.prev] == b[f.prev];
  }

  /** A prediction is settled by the rows before its entry. */
  lemma LooksBack(ctx: Context, kind: Kind, id: nat, a: seq<Row>, b: seq<Row>, n: nat)
    requires Valid(ctx) && Rows(a, n) && Rows(b, n) && id <= |a| && id <= |b| && a[..id] == b[..id]
    requires kind.Chosen? && id > 0 ==> id < |kind.masks| && |kind.masks[id]| == |Flaps(ctx, id)|
    ensures Predicted(ctx, kind, id, a, n) == Predicted(ctx, kind, id, b, n)
  {
    hide Flaps, Extrapolated, Total, Divided;
    if id > 0 {
      assert a[id - 1] == a[..id][id - 1] && b[id - 1] == b[..id][id - 1];
      var flaps := Flaps(ctx, id);
      TotalLooksBack(flaps, AllTrue(|flaps|), id, a, b, n);
      if kind.Chosen? {
        TotalLooksBack(flaps, kind.masks[id], id, a, b, n);
      }
      if flaps != [] {
        ExtrapolatedLooksBack(flaps[0], id, a, b, n);
      }
    }
  }

  // ---- corrections and back ------------------------------------------------------------------------

  ghost function Corrections(ctx: Context, kind: Kind, b: Bounds, values: seq<Row>, n: nat): (r: seq<Row>)
    requires Valid(ctx) && Rows(values, n) && Suits(ctx, kind, |values|)
    ensures |r| == |values| && Rows(r, n)
  {
    seq(|values|, id requires 0 <= id < |values| => CorrectRow(b, values[id], Predicted(ctx, kind, id, values, n)))
  }

  /** Rows restored in order from their corrections. */
  ghost function Rebuilt(ctx: Context, kind: Kind, b: Bounds, corrections: seq<Row>, n: nat): (r: seq<Row>)
    requires Valid(ctx) && Rows(corrections, n)
    requires kind.Chosen? ==> |kind.masks| >= |corrections| && forall id :: 1 <= id < |corrections| ==> |kind.masks[id]| == |Flaps(ctx, id)|
    ensures |r| == |corrections| && Rows(r, n)
  {
    if corrections == [] then []
    else
      var last := |corrections| - 1;
      var before := Rebuilt(ctx, kind, b, corrections[..last], n);
      before + [RestoreRow(b, Predicted(ctx, kind, last, before, n), corrections[last])]
  }

  lemma {:induction false} RebuiltPrefix(ctx: Context, kind: Kind, b: Bounds, values: seq<Row>, n: nat, k: nat)
    requires Valid(ctx) && Rows(values, n) && Suits(ctx, kind, |values|) && k <= |values|
    requires ValidBounds(b) && Fits(b) && forall i :: 0 <= i < |values| ==> RowInside(b, values[i])
    ensures Rebuilt(ctx, kind, b, Corrections(ctx, kind, b, values, n)[..k], n) == values[..k]
    decreases k
  {
    hide Predicted, CorrectRow, RestoreRow, RowInside, Fits, ValidBounds, Flaps, Valid;
    var corrections := Corrections(ctx, kind, b, values, n);
    if k > 0 {
      var last := k - 1;
      RebuiltPrefix(ctx, kind, b, values, n, last);
      assert corrections[..k][..last] == corrections[..last] && corrections[..k][last] == corrections[last];
      LooksBack(ctx, kind, last, values[..last], values, n);
      RowRestored(b, values[last], Predicted(ctx, kind, last, values, n));
      assert values[..k] == values[..last] + [values[last]];
    }
  }

  /** The law of predictive coding: every prediction method, on every mesh and with every choice of
      masks, gives back all values within bounds that wrap losslessly. */
  lemma PredictionRoundTrip(ctx: Context, kind: Kind, b: Bounds, values: seq<Row>, n: nat)
    requires Valid(ctx) && Rows(values, n) && Suits(ctx, kind, |values|)
    requires ValidBounds(b) && Fits(b) && forall i :: 0 <= i < |values| ==> RowInside(b, values[i])
    ensures Rebuilt(ctx, kind, b, Corrections(ctx, kind, b, values, n), n) == values
  {
    hide Rebuilt;
    var corrections := Corrections(ctx, kind, b, values, n);
    RebuiltPrefix(ctx, kind, b, values, n, |values|);
    assert corrections[..|values|] == corrections && values[..|values|] == values;
  }

  // ---- the condition on bounds is exact --------------------------------------------------------------

  ghost predicate Tight(b: Bounds, values: seq<Row>)
  {
    (forall i :: 0 <= i < |values| ==> RowInside(b, values[i])) && [b.min] in values && [b.max] in values
  }

  /** Single-component difference prediction is lossless for all values with given tight bounds
      exactly when no correction at these bounds leaves the 32-bit range. */
  lemma DifferenceIsLossless(ctx: Context, b: Bounds)
    requires Valid(ctx) && ValidBounds(b)
    ensures Fits(b) <==> forall values :: Rows(values, 1) && Tight(b, values) ==> DifferenceKeeps(ctx, b, values)
  {
    hide Rebuilt, Corrections, Fits, RowInside, Valid;
    if Fits(b) {
      forall values | Rows(values, 1) && Tight(b, values)
        ensures DifferenceKeeps(ctx, b, values)
      {
        PredictionRoundTrip(ctx, Difference, b, values, 1);
      }
    } else {
      var lost := LosingValues(b);
      LosingValuesLose(b);
      assert lost == [[lost[0][0]], [lost[1][0]], [lost[2][0]]];
      LosesValue(ctx, b, lost[0][0], lost[1][0], lost[2][0]);
      assert !DifferenceKeeps(ctx, b, lost);
    }
  }

  ghost predicate DifferenceKeeps(ctx: Context, b: Bounds, values: seq<Row>)
    requires Valid(ctx) && Rows(values, 1)
  {
    Rebuilt(ctx, Difference, b, Corrections(ctx, Difference, b, values, 1), 1) == values
  }

  /** Both bounds, ordered so that the lost value is predicted by the harmful one. */
  ghost function LosingValues(b: Bounds): (r: seq<Row>)
    ensures |r| == 3 && Rows(r, 1)
  {
    if b.max + MaxCorrection(b) >= 0x8000_0000 then [[b.min], [b.max], [b.max + MaxCorrection(b) - MaxDif(b)]]
    else [[b.max], [b.min], [b.min + MinCorrection(b) + MaxDif(b)]]
  }

  lemma LosingValuesLose(b: Bounds)
    requires ValidBounds(b) && !Fits(b)
    ensures var r := LosingValues(b);
            Tight(b, r) && Restore(b, r[1][0], Correct(b, r[2][0], r[1][0])) != r[2][0]
  {
    hide Restore, Correct, MaxDif, Tight, MaxCorrection, MinCorrection;
    if b.max + MaxCorrection(b) >= 0x8000_0000 {
      LostAbove(b);
      ThreeTight(b, b.min, b.max, b.max + MaxCorrection(b) - MaxDif(b));
    } else {
      LostBelow(b);
      ThreeTight(b, b.max, b.min, b.min + MinCorrection(b) + MaxDif(b));
    }
  }

  lemma ThreeTight(b: Bounds, u: int, v: int, w: int)
    requires b.min <= b.max && Inside(b, w) && ((u == b.min && v == b.max) || (u == b.max && v == b.min))
    ensures Tight(b, [[u], [v], [w]])
  {
    var r: seq<Row> := [[u], [v], [w]];
    Contains(r, 0);
    Contains(r, 1);
    assert r[0] == [u] && r[1] == [v] && r[2] == [w];
    assert RowInside(b, [u]) && RowInside(b, [v]) && RowInside(b, [w]);
  }

  lemma Contains(s: seq<Row>, i: nat)
    requires i < |s|
    ensures s[i] in s
  {
  }

  lemma LosesValue(ctx: Context, b: Bounds, u: int, v: int, w: int)
    requires Valid(ctx) && ValidBounds(b) && Restore(b, v, Correct(b, w, v)) != w
    ensures !DifferenceKeeps(ctx, b, [[u], [v], [w]])
  {
    hide Restore, Correct, Valid, ValidBounds;
    var values: seq<Row> := [[u], [v], [w]];
    assert Rows(values, 1);
    var corrections := Corrections(ctx, Difference, b, values, 1);
    assert corrections[2] == CorrectRow(b, [w], [v]);
    var restored := Rebuilt(ctx, Difference, b, corrections, 1);
    assert restored[2] == RestoreRow(b, restored[1], corrections[2]);
  }
}
