/** What the predictors predict (mesh_prediction.go): parallelograms are met exactly, flags that are
    set leave parallelograms out, and corrections are the smallest that lead to the value. */
module PredictionMeaning {
  import opened Bits
  import opened Corners
  import opened Wrapping
  import opened Prediction
  import opened CreaseFlags

  // ---- corrections -------------------------------------------------------------------------------------

  /** A correction is the difference to the prediction, taken into the bounds, modulo the width of the
      range, from its negative half up to, but without, its positive half. */
  lemma CorrectionLeast(b: Bounds, original: int, predicted: int)
    requires ValidBounds(b) && Inside(b, original)
    ensures var m, k := b.max - b.min + 1, Correct(b, original, predicted);
            var from := if predicted < b.min then b.min else if predicted > b.max then b.max else predicted;
            -m <= 2 * k < m && from + k - original in {-m, 0, m}
  {
    CorrectionRange(b, original, predicted);
  }

  lemma CorrectionOfNothing(b: Bounds, row: Row)
    requires ValidBounds(b) && RowInside(b, row)
    ensures forall i :: 0 <= i < |row| ==> CorrectRow(b, row, row)[i] == 0
  {
    forall i | 0 <= i < |row|
      ensures Correct(b, row[i], row[i]) == 0
    {
      CorrectionLeast(b, row[i], row[i]);
      assert Inside(b, row[i]);
    }
  }

  // ---- parallelograms ------------------------------------------------------------------------------------

  /** The corner's face and the one across its edge form a parallelogram in every component: the entry is
      to one end of the edge what the other end is to the far tip. */
  ghost predicate ParallelAt(ctx: Context, values: seq<Row>, id: nat, corner: nat, n: nat)
    requires Valid(ctx) && Rows(values, n) && id < |values| && corner < |ctx.opposite|
  {
    FlapAt(ctx, id, corner).Some? ==>
      var o := ctx.opposite[corner];
      RotateBelow(o, |ctx.opposite| / 3);
      var tip, next, prev := EntryAt(ctx, o), EntryAt(ctx, Next(o)), EntryAt(ctx, Previous(o));
      forall i :: 0 <= i < n ==> values[id][i] - values[next][i] == values[prev][i] - values[tip][i]
  }

  /** So it is for all corners of the entry's fan. */
  ghost predicate ParallelAround(ctx: Context, values: seq<Row>, id: nat, n: nat)
    requires Valid(ctx) && Rows(values, n) && id < |values|
  {
    id < |ctx.dataToCorner| && ctx.dataToCorner[id] >= 0 ==>
      forall c: nat :: c < |ctx.opposite| && Linked(ctx.opposite, ctx.dataToCorner[id], c) ==> ParallelAt(ctx, values, id, c, n)
  }

  ghost predicate Exact(f: Flap, values: seq<Row>, id: nat, n: nat)
    requires Rows(values, n) && f.tip < id && f.next < id && f.prev < id && id < |values|
  {
    Extrapolated(f, values, n) == values[id]
  }

  ghost predicate AllExact(flaps: seq<Flap>, values: seq<Row>, id: nat, n: nat)
    requires Rows(values, n) && Before(flaps, id) && id < |values|
  {
    forall i :: 0 <= i < |flaps| ==> Exact(flaps[i], values, id, n)
  }

  /** The k-fold values are 32-bit numbers. */
  predicate FitsTimes(k: nat, row: Row)
  {
    forall i :: 0 <= i < |row| ==> Int32(k * row[i])
  }

  predicate Words(row: Row)
  {
    forall i :: 0 <= i < |row| ==> Int32(row[i])
  }

  lemma FlapExact(ctx: Context, values: seq<Row>, id: nat, corner: nat, n: nat)
    requires Valid(ctx) && Rows(values, n) && id < |values| && corner < |ctx.opposite| && Words(values[id])
    requires ParallelAt(ctx, values, id, corner, n) && FlapAt(ctx, id, corner).Some?
    ensures Exact(FlapAt(ctx, id, corner).value, values, id, n)
  {
    var f := FlapAt(ctx, id, corner).value;
    forall i | 0 <= i < n
      ensures Extrapolated(f, values, n)[i] == values[id][i]
    {
      assert values[f.next][i] + values[f.prev][i] - values[f.tip][i] == values[id][i];
    }
  }

  lemma {:induction false} FlapsExact(ctx: Context, values: seq<Row>, id: nat, corners: seq<int>, n: nat)
    requires Valid(ctx) && Rows(values, n) && id < |values| && Words(values[id])
    requires forall i :: 0 <= i < |corners| ==> 0 <= corners[i] < |ctx.opposite| && ParallelAt(ctx, values, id, corners[i], n)
    ensures AllExact(FlapsAt(ctx, id, corners), values, id, n)
    decreases |corners|
  {
    hide ParallelAt, Exact, FlapAt, Valid;
    if corners != [] {
      var last := |corners| - 1;
      FlapsExact(ctx, values, id, corners[..last], n);
      if FlapAt(ctx, id, corners[last]).Some? {
        FlapExact(ctx, values, id, corners[last], n);
      }
    }
  }

  lemma AroundExact(ctx: Context, values: seq<Row>, id: nat, n: nat)
    requires Valid(ctx) && Rows(values, n) && id < |values| && Words(values[id]) && ParallelAround(ctx, values, id, n)
    ensures AllExact(Flaps(ctx, id), values, id, n)
  {
    hide ParallelAt, Exact, FlapsAt, Linked;
    if id < |ctx.dataToCorner| && ctx.dataToCorner[id] >= 0 {
      var start := ctx.dataToCorner[id];
      VisitsFan(ctx.opposite, start);
      var corners := Visits(ctx.opposite, start);
      forall i | 0 <= i < |corners|
        ensures 0 <= corners[i] < |ctx.opposite| && ParallelAt(ctx, values, id, corners[i], n)
      {
        assert corners[i] in corners;
      }
      FlapsExact(ctx, values, id, corners, n);
    }
  }

  /** A sum of equal rows. */
  function Times(k: nat, row: Row): (r: Row)
    ensures |r| == |row|
  {
    seq(|row|, i requires 0 <= i < |row| => k * row[i])
  }

  lemma {:induction false} TotalExact(flaps: seq<Flap>, mask: seq<bool>, k: nat, values: seq<Row>, id: nat, n: nat)
    requires |mask| == |flaps| && Rows(values, n) && Before(flaps, id) && id < |values|
    requires AllExact(flaps, values, id, n) && Ones(mask) <= k && FitsTimes(k, values[id])
    ensures Total(flaps, mask, values, n) == Times(Ones(mask), values[id])
    decreases |flaps|
  {
    hide Extrapolated, FitsTimes;
    if flaps != [] {
      var last := |flaps| - 1;
      TotalExact(flaps[..last], mask[..last], k, values, id, n);
      assert Exact(flaps[last], values, id, n);
      if mask[last] {
        TimesNext(Ones(mask[..last]), k, values[id]);
      }
    } else {
      assert Times(0, values[id]) == ZeroRow(n);
    }
  }

  lemma TimesNext(j: nat, k: nat, row: Row)
    requires j < k && FitsTimes(k, row)
    ensures Plus(Times(j, row), row) == Times(j + 1, row)
  {
    forall i | 0 <= i < |row|
      ensures S32(j * row[i] + row[i]) == (j + 1) * row[i]
    {
      assert Int32(k * row[i]);
      NextMultiple(j, k, row[i]);
    }
  }

  lemma NextMultiple(j: nat, k: nat, x: int)
    requires j < k && Int32(k * x)
    ensures j * x + x == (j + 1) * x && S32((j + 1) * x) == (j + 1) * x
  {
    if x >= 0 {
      MulMono(j + 1, k, x);
    } else {
      MulMono(j + 1, k, -x);
    }
  }

  lemma AverageExact(flaps: seq<Flap>, mask: seq<bool>, previous: Row, values: seq<Row>, id: nat, n: nat)
    requires |mask| == |flaps| && Rows(values, n) && Before(flaps, id) && id < |values| && |previous| == n
    requires AllExact(flaps, values, id, n) && Ones(mask) > 0 && FitsTimes(Ones(mask), values[id])
    ensures Averaged(flaps, mask, previous, values, n) == values[id]
  {
    hide Extrapolated, Total, AllExact;
    TotalExact(flaps, mask, Ones(mask), values, id, n);
    forall i | 0 <= i < n
      ensures TruncDiv(Ones(mask) * values[id][i], Ones(mask)) == values[id][i]
    {
      TruncMultiple(Ones(mask), values[id][i]);
    }
  }

  lemma {:induction false} OnesOfAll(k: nat)
    ensures Ones(AllTrue(k)) == k
    decreases k
  {
    if k > 0 {
      OnesOfAll(k - 1);
      assert AllTrue(k)[..k - 1] == AllTrue(k - 1);
    }
  }

  /** The method has something to average, and its sums stay in 32 bits. */
  ghost predicate Averages(ctx: Context, kind: Kind, row: Row, id: nat)
    requires Valid(ctx)
  {
    match kind
    case Difference => false
    case First => Flaps(ctx, id) != []
    case Average => Flaps(ctx, id) != [] && FitsTimes(|Flaps(ctx, id)|, row)
    case Chosen(masks) => id < |masks| && |masks[id]| == |Flaps(ctx, id)| && Ones(masks[id]) > 0 && FitsTimes(Ones(masks[id]), row)
  }

  /** Where the mesh around an entry consists of parallelograms, the first one predicts the entry exactly;
      so do the average of all and the average of any chosen ones, when their sums stay in 32 bits. */
  lemma ParallelogramsPredict(ctx: Context, kind: Kind, values: seq<Row>, id: nat, n: nat)
    requires Valid(ctx) && Rows(values, n) && 0 < id < |values| && Words(values[id]) && ParallelAround(ctx, values, id, n)
    requires Averages(ctx, kind, values[id], id)
    ensures Predicted(ctx, kind, id, values, n) == values[id]
  {
    hide ParallelAround, Flaps, Extrapolated, Averaged, Valid;
    AroundExact(ctx, values, id, n);
    var flaps := Flaps(ctx, id);
    match kind
    case First => assert Exact(flaps[0], values, id, n);
    case Average =>
      OnesOfAll(|flaps|);
      AverageExact(flaps, AllTrue(|flaps|), values[id - 1], values, id, n);
    case Chosen(masks) =>
      AverageExact(flaps, masks[id], values[id - 1], values, id, n);
  }

  /** So its correction is zero in every component. */
  lemma ParallelogramsCorrect(ctx: Context, kind: Kind, b: Bounds, values: seq<Row>, id: nat, n: nat)
    requires Valid(ctx) && Rows(values, n) && Suits(ctx, kind, |values|) && ValidBounds(b) && 0 < id < |values| && RowInside(b, values[id])
    requires ParallelAround(ctx, values, id, n) && Averages(ctx, kind, values[id], id)
    ensures forall i :: 0 <= i < n ==> Corrections(ctx, kind, b, values, n)[id][i] == 0
  {
    hide Predicted, CorrectRow, ParallelAround, Averages;
    InsideIsWords(b, values[id]);
    ParallelogramsPredict(ctx, kind, values, id, n);
    CorrectionOfNothing(b, values[id]);
  }

  lemma InsideIsWords(b: Bounds, row: Row)
    requires ValidBounds(b) && RowInside(b, row)
    ensures Words(row)
  {
    forall i | 0 <= i < |row|
      ensures Int32(row[i])
    {
      assert Inside(b, row[i]);
    }
  }

  // ---- order and choice ------------------------------------------------------------------------------------

  /** A fan is walked from its first corner to the left and, where that ends at a boundary, on from the
      first corner to its right. */
  ghost predicate LeftThenRight(opp: seq<int>, walk: seq<int>, k: nat)
    requires Matching(opp) && forall i :: 0 <= i < |walk| ==> 0 <= walk[i] < |opp|
  {
    1 <= k <= |walk| && (forall i :: 0 <= i < k - 1 ==> SwingLeft(opp, walk[i]) == walk[i + 1]) &&
    (k < |walk| ==> SwingLeft(opp, walk[k - 1]) < 0 && SwingRight(opp, walk[0]) == walk[k]) &&
    forall i :: k <= i < |walk| - 1 ==> SwingRight(opp, walk[i]) == walk[i + 1]
  }

  lemma VisitOrder(opp: seq<int>, start: nat)
    requires Matching(opp) && start < |opp|
    ensures var walk := Visits(opp, start);
            Distinct(walk, |opp|) && walk != [] && walk[0] == start && exists k :: LeftThenRight(opp, walk, k)
  {
    hide SwingLeft, SwingRight;
    VisitsFan(opp, start);
    SingleWalk(opp, start);
    var left, right := LeftFrom(opp, [start]), RightFrom(opp, [start]);
    assert left[0] == [start][0] && right[0] == [start][0];
    assert LeftThenRight(opp, Visits(opp, start), |left|);
  }

  /** Of the parallelograms in that order no more than the first four count. */
  lemma FirstFour(ctx: Context, id: nat)
    requires Valid(ctx) && id < |ctx.dataToCorner| && ctx.dataToCorner[id] >= 0
    ensures var walk := Visits(ctx.opposite, ctx.dataToCorner[id]);
            (forall i :: 0 <= i < |walk| ==> 0 <= walk[i] < |ctx.opposite|) &&
            var all := FlapsAt(ctx, id, walk);
            Flaps(ctx, id) == all[..if |all| > 4 then 4 else |all|]
  {
    VisitsFan(ctx.opposite, ctx.dataToCorner[id]);
  }

  /** Earlier entries with exactly g parallelograms; the first entry has none to choose from. */
  ghost function GroupsBefore(ctx: Context, g: nat, id: nat): nat
    requires Valid(ctx)
  {
    if id <= 1 then 0 else GroupsBefore(ctx, g, id - 1) + if |Flaps(ctx, id - 1)| == g then 1 else 0
  }

  lemma {:induction false} UsedIsGroups(ctx: Context, c: nat, id: nat)
    requires Valid(ctx)
    ensures Used(ctx, c, id) == (c + 1) * GroupsBefore(ctx, c + 1, id)
    decreases id
  {
    hide Flaps, Valid;
    if id > 1 {
      UsedIsGroups(ctx, c, id - 1);
    }
  }

  /** An entry with g parallelograms finds its flags in the g-th context, after those of the earlier
      entries with as many; a set flag leaves its parallelogram out. */
  lemma MaskMeaning(ctx: Context, flags: seq<seq<bool>>, id: nat, i: nat)
    requires Valid(ctx) && |flags| == MAX_FLAPS && id >= 1 && Enough(ctx, flags, id + 1) && i < |Flaps(ctx, id)|
    ensures var g := |Flaps(ctx, id)|;
            1 <= g <= 4 && 0 <= g * GroupsBefore(ctx, g, id) + i < |flags[g - 1]| &&
            MaskAt(ctx, flags, id)[i] == !flags[g - 1][g * GroupsBefore(ctx, g, id) + i]
  {
    hide Flaps, Valid;
    var c := |Flaps(ctx, id)| - 1;
    UsedIsGroups(ctx, c, id);
    assert Used(ctx, c, id + 1) == Used(ctx, c, id) + c + 1;
  }

  lemma {:induction false} NoOnes(mask: seq<bool>)
    requires forall i :: 0 <= i < |mask| ==> !mask[i]
    ensures Ones(mask) == 0
    decreases |mask|
  {
    if mask != [] {
      NoOnes(mask[..|mask| - 1]);
    }
  }

  /** Leaving all of them out predicts the row before. */
  lemma NoneChosen(ctx: Context, masks: seq<seq<bool>>, values: seq<Row>, id: nat, n: nat)
    requires Valid(ctx) && Rows(values, n) && 0 < id <= |values| && id < |masks| && |masks[id]| == |Flaps(ctx, id)|
    requires forall i :: 0 <= i < |masks[id]| ==> !masks[id][i]
    ensures Predicted(ctx, Chosen(masks), id, values, n) == values[id - 1]
  {
    NoOnes(masks[id]);
  }

  /** The first entry is predicted by zeros; differences, and all other methods where no parallelogram is
      known, predict the row before. */
  lemma RowsBefore(ctx: Context, kind: Kind, values: seq<Row>, id: nat, n: nat)
    requires Valid(ctx) && Rows(values, n) && id <= |values|
    requires kind.Chosen? && id > 0 ==> id < |kind.masks| && |kind.masks[id]| == |Flaps(ctx, id)|
    ensures id == 0 ==> forall i :: 0 <= i < n ==> Predicted(ctx, kind, id, values, n)[i] == 0
    ensures id > 0 && (kind.Difference? || Flaps(ctx, id) == []) ==> Predicted(ctx, kind, id, values, n) == values[id - 1]
  {
    hide Flaps, Valid;
    if id > 0 && Flaps(ctx, id) == [] && kind.Chosen? {
      NoOnes(kind.masks[id]);
    }
  }
}
