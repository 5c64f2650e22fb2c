/** The predictors and the correction loops of mesh_prediction.go in their own steps. */
module Predictors {
  import opened Bits
  import opened Corners
  import opened Wrapping
  import opened Prediction

  // ---- the prediction context --------------------------------------------------------------------

  /** newMeshPredictionContext: a representative corner for every entry that some point with a
      corner maps to. */
  method BuildContext(opposite: seq<int>, vertex: seq<int>, vertexCorners: seq<int>, mapping: seq<int>, numEntries: nat)
    returns (ctx: Context)
    requires Matching(opposite) && |vertex| == |opposite| && forall c :: 0 <= c < |vertex| ==> 0 <= vertex[c] < |mapping|
    requires forall v :: 0 <= v < |vertexCorners| ==> -1 <= vertexCorners[v] < |opposite|
    ensures Valid(ctx) && ctx.opposite == opposite && ctx.vertex == vertex && ctx.vertexToData == mapping && |ctx.dataToCorner| == numEntries
    ensures forall e :: 0 <= e < numEntries ==> Represents(vertexCorners, mapping, |mapping|, e, ctx.dataToCorner[e])
  {
    var corners := new int[numEntries](_ => -1);
    for p := 0 to |mapping|
      invariant forall e :: 0 <= e < numEntries ==> -1 <= corners[e] < |opposite|
      invariant forall e :: 0 <= e < numEntries ==> Represents(vertexCorners, mapping, p, e, corners[e])
    {
      var entry := mapping[p];
      if 0 <= entry < numEntries && corners[entry] == -1 && CornerOf(vertexCorners, p) != -1 {
        corners[entry] := CornerOf(vertexCorners, p);
      }
    }
    ctx := Context(opposite, vertex, mapping, corners[..]);
  }

  /** LeftMostCorner. */
  function CornerOf(vertexCorners: seq<int>, p: nat): int
  {
    if p < |vertexCorners| then vertexCorners[p] else -1
  }

  /** The corner of the first point that maps to the entry and has one. */
  ghost predicate Represents(vertexCorners: seq<int>, mapping: seq<int>, points: nat, entry: int, corner: int)
    requires points <= |mapping|
  {
    if corner == -1 then
      forall p: nat :: p < points && mapping[p] == entry ==> CornerOf(vertexCorners, p) == -1
    else
      exists p: nat :: p < points && mapping[p] == entry && CornerOf(vertexCorners, p) == corner &&
        forall q: nat :: q < p && mapping[q] == entry ==> CornerOf(vertexCorners, q) == -1
  }

  // ---- visiting corners ------------------------------------------------------------------------

  lemma {:induction false} FlapsGrow(ctx: Context, id: nat, a: seq<int>, b: seq<int>)
    requires Valid(ctx) && a <= b && forall i :: 0 <= i < |b| ==> 0 <= b[i] < |ctx.opposite|
    ensures FlapsAt(ctx, id, a) <= FlapsAt(ctx, id, b)
    decreases |b|
  {
    if a == b {
    } else {
      FlapsGrow(ctx, id, a, b[..|b| - 1]);
    }
  }

  /** Where a visit stands: corners seen, and the walk to the current one. */
  ghost predicate Visiting(opp: seq<int>, start: nat, firstPass: bool, seen: seq<int>, walk: seq<int>)
    requires Matching(opp) && start < |opp| && LeftWalk(opp, [start]) && RightWalk(opp, [start])
  {
    var left := LeftFrom(opp, [start]);
    if firstPass then LeftWalk(opp, walk) && LeftFrom(opp, walk) == left && walk[0] == start && seen == walk[..|walk| - 1]
    else
      RightWalk(opp, walk) && RightFrom(opp, walk) == RightFrom(opp, [start]) && SwingLeft(opp, left[|left| - 1]) < 0 &&
      walk[0] == start && |walk| > 1 && seen == left + walk[1..|walk| - 1]
  }

  lemma SeenIsPrefix(opp: seq<int>, start: nat, firstPass: bool, seen: seq<int>, walk: seq<int>)
    requires Matching(opp) && start < |opp| && LeftWalk(opp, [start]) && RightWalk(opp, [start])
    requires Visiting(opp, start, firstPass, seen, walk)
    ensures seen + [walk[|walk| - 1]] <= Visits(opp, start)
  {
    hide SwingLeft, SwingRight, Distinct;
    var c := walk[|walk| - 1];
    if firstPass {
      assert seen + [c] == walk;
    } else {
      assert seen + [c] == LeftFrom(opp, [start]) + walk[1..];
    }
  }

  /** One step of a visit: on the same side, to the other side, or to the end. */
  lemma VisitStep(opp: seq<int>, start: nat, firstPass: bool, seen: seq<int>, walk: seq<int>)
    requires Matching(opp) && start < |opp| && LeftWalk(opp, [start]) && RightWalk(opp, [start])
    requires Visiting(opp, start, firstPass, seen, walk)
    ensures var c := walk[|walk| - 1];
            var next := if firstPass then SwingLeft(opp, c) else SwingRight(opp, c);
            if next == start || (next < 0 && (!firstPass || SwingRight(opp, start) < 0)) then seen + [c] == Visits(opp, start)
            else if next < 0 then Visiting(opp, start, false, seen + [c], [start, SwingRight(opp, start)])
            else Visiting(opp, start, firstPass, seen + [c], walk + [next]) && |walk| < |opp|
  {
    if firstPass {
      StepLeft(opp, start, seen, walk);
    } else {
      StepRight(opp, start, seen, walk);
    }
  }

  lemma StepLeft(opp: seq<int>, start: nat, seen: seq<int>, walk: seq<int>)
    requires Matching(opp) && start < |opp| && LeftWalk(opp, [start]) && RightWalk(opp, [start])
    requires Visiting(opp, start, true, seen, walk)
    ensures var c := walk[|walk| - 1];
            var next := SwingLeft(opp, c);
            if next == start || (next < 0 && SwingRight(opp, start) < 0) then seen + [c] == Visits(opp, start)
            else if next < 0 then Visiting(opp, start, false, seen + [c], [start, SwingRight(opp, start)])
            else Visiting(opp, start, true, seen + [c], walk + [next]) && |walk| < |opp|
  {
    hide SwingLeft, SwingRight;
    var c := walk[|walk| - 1];
    var next := SwingLeft(opp, c);
    assert seen + [c] == walk;
    if next >= 0 && next != start {
      LeftWalkOn(opp, walk, next);
      assert (walk + [next])[..|walk|] == walk;
    } else if next < 0 {
      StartRight(opp, start);
    }
  }

  lemma StepRight(opp: seq<int>, start: nat, seen: seq<int>, walk: seq<int>)
    requires Matching(opp) && start < |opp| && LeftWalk(opp, [start]) && RightWalk(opp, [start])
    requires Visiting(opp, start, false, seen, walk)
    ensures var c := walk[|walk| - 1];
            var next := SwingRight(opp, c);
            if next == start || next < 0 then seen + [c] == Visits(opp, start)
            else Visiting(opp, start, false, seen + [c], walk + [next]) && |walk| < |opp|
  {
    hide SwingLeft, SwingRight;
    var c := walk[|walk| - 1];
    var next := SwingRight(opp, c);
    assert seen + [c] == LeftFrom(opp, [start]) + walk[1..];
    if next >= 0 && next != start {
      RightWalkOn(opp, walk, next);
      assert (walk + [next])[1..|walk|] == walk[1..];
    }
  }

  lemma StartRight(opp: seq<int>, start: nat)
    requires Matching(opp) && start < |opp| && LeftWalk(opp, [start]) && RightWalk(opp, [start])
    requires var left := LeftFrom(opp, [start]); SwingLeft(opp, left[|left| - 1]) < 0
    ensures SwingRight(opp, start) < 0 ==> LeftFrom(opp, [start]) == Visits(opp, start)
    ensures var next := SwingRight(opp, start);
            next >= 0 ==> Visiting(opp, start, false, LeftFrom(opp, [start]), [start, next])
  {
    hide SwingLeft, SwingRight;
    var next := SwingRight(opp, start);
    if next >= 0 {
      SwingInverse(opp, start);
      SwingInverse(opp, next);
      var left := LeftFrom(opp, [start]);
      WalkStep(opp, [start], left, 0, 0);
      RightWalkOn(opp, [start], next);
      assert [start] + [next] == [start, next];
    }
  }

  lemma FlapsStep(ctx: Context, id: nat, seen: seq<int>, corner: nat)
    requires Valid(ctx) && corner < |ctx.opposite| && forall i :: 0 <= i < |seen| ==> 0 <= seen[i] < |ctx.opposite|
    ensures FlapsAt(ctx, id, seen + [corner]) ==
            FlapsAt(ctx, id, seen) + match FlapAt(ctx, id, corner) case None => [] case Some(f) => [f]
  {
    assert (seen + [corner])[..|seen|] == seen;
  }

  lemma NoFlaps(ctx: Context, id: nat)
    requires Valid(ctx)
    ensures FlapsAt(ctx, id, []) == []
  {
  }

  /** The first parallelograms around an entry, up to a limit. */
  method CollectFlaps(ctx: Context, id: nat, limit: nat) returns (flaps: seq<Flap>)
    requires Valid(ctx) && 1 <= limit <= MAX_FLAPS
    ensures flaps == Limited(Flaps(ctx, id), limit)
  {
    hide SwingLeft, SwingRight, Visits, FlapAt, FlapsAt, Visiting, LeftWalk, RightWalk, Linked;
    flaps := [];
    if id >= |ctx.dataToCorner| || ctx.dataToCorner[id] < 0 {
      return;
    }
    var start := ctx.dataToCorner[id];
    var corner, firstPass := start, true;
    SingleWalk(ctx.opposite, start);
    VisitsFan(ctx.opposite, start);
    ghost var all := Visits(ctx.opposite, start);
    ghost var seen, walk: seq<int> := [], [start];
    VisitBegins(ctx.opposite, start);
    NoFlaps(ctx, id);
    while corner != -1
      invariant -1 <= corner < |ctx.opposite| && |flaps| < limit && seen <= all && flaps == FlapsAt(ctx, id, seen)
      invariant if corner < 0 then seen == all else walk != [] && walk[|walk| - 1] == corner && Visiting(ctx.opposite, start, firstPass, seen, walk)
      decreases corner >= 0, firstPass, |ctx.opposite| - |walk|
    {
      SeenIsPrefix(ctx.opposite, start, firstPass, seen, walk);
      VisitStep(ctx.opposite, start, firstPass, seen, walk);
      FlapsStep(ctx, id, seen, corner);
      seen := seen + [corner];
      match FlapAt(ctx, id, corner) {
        case None =>
        case Some(f) =>
          flaps := flaps + [f];
      }
      if |flaps| >= limit {
        FlapsGrow(ctx, id, seen, all);
        return;
      }
      SwingRange(ctx.opposite, corner);
      SwingRange(ctx.opposite, start);
      if firstPass {
        corner := SwingLeft(ctx.opposite, corner);
      } else {
        corner := SwingRight(ctx.opposite, corner);
      }
      if corner == start {
        break;
      }
      if corner < 0 && firstPass {
        firstPass := false;
        corner := SwingRight(ctx.opposite, start);
        walk := [start, corner];
      } else {
        walk := walk + [corner];
      }
    }
  }

  lemma SwingRange(opp: seq<int>, c: nat)
    requires Matching(opp) && c < |opp|
    ensures -1 <= SwingLeft(opp, c) < |opp| && -1 <= SwingRight(opp, c) < |opp|
  {
    SwingInverse(opp, c);
  }

  lemma VisitBegins(opp: seq<int>, start: nat)
    requires Matching(opp) && start < |opp| && LeftWalk(opp, [start]) && RightWalk(opp, [start])
    ensures Visiting(opp, start, true, [], [start])
  {
  }

  // ---- predicted rows ----------------------------------------------------------------------------

  method Extrapolate(f: Flap, values: array<Row>, n: nat, ghost known: nat) returns (out: Row)
    requires Rows(values[..], n) && f.tip < known && f.next < known && f.prev < known && known <= values.Length
    ensures out == Extrapolated(f, values[..], n)
  {
    out := [];
    for i := 0 to n
      invariant |out| == i && forall k :: 0 <= k < i ==> out[k] == Extrapolated(f, values[..], n)[k]
    {
      out := out + [S32(values[f.next][i] + values[f.prev][i] - values[f.tip][i])];
    }
  }

  method AddRows(a: Row, b: Row) returns (out: Row)
    requires |a| == |b|
    ensures out == Plus(a, b)
  {
    out := [];
    for i := 0 to |a|
      invariant |out| == i && forall k :: 0 <= k < i ==> out[k] == Plus(a, b)[k]
    {
      out := out + [S32(a[i] + b[i])];
    }
  }

  method DivideRow(a: Row, count: nat) returns (out: Row)
    requires count > 0
    ensures out == Divided(a, count)
  {
    out := [];
    for i := 0 to |a|
      invariant |out| == i && forall k :: 0 <= k < i ==> out[k] == Divided(a, count)[k]
    {
      out := out + [TruncDiv(a[i], count)];
    }
  }

  /** Sums the selected parallelograms and counts them. */
  method SumSelected(flaps: seq<Flap>, mask: seq<bool>, values: array<Row>, n: nat, ghost known: nat) returns (sum: Row, used: nat)
    requires |mask| == |flaps| && Rows(values[..], n) && Before(flaps, known) && known <= values.Length
    ensures sum == Total(flaps, mask, values[..], n) && used == Ones(mask)
  {
    hide Extrapolated, Plus;
    sum, used := ZeroRow(n), 0;
    for i := 0 to |flaps|
      invariant sum == Total(flaps[..i], mask[..i], values[..], n) && used == Ones(mask[..i])
    {
      assert flaps[..i + 1][..i] == flaps[..i] && mask[..i + 1][..i] == mask[..i];
      if mask[i] {
        var row := Extrapolate(flaps[i], values, n, known);
        sum := AddRows(sum, row);
        used := used + 1;
      }
    }
    assert flaps[..|flaps|] == flaps && mask[..|flaps|] == mask;
  }

  lemma {:induction false} AllOnes(k: nat)
    ensures Ones(AllTrue(k)) == k
  {
    if k > 0 {
      assert AllTrue(k)[..k - 1] == AllTrue(k - 1);
      AllOnes(k - 1);
    }
  }

  method FirstParallelogramPrediction(ctx: Context, id: nat, values: array<Row>, n: nat) returns (found: bool, out: Row)
    requires Valid(ctx) && Rows(values[..], n) && 0 < id <= values.Length
    ensures found == (Flaps(ctx, id) != [])
    ensures found ==> out == Predicted(ctx, First, id, values[..], n)
  {
    hide Flaps, Extrapolated;
    var flaps := CollectFlaps(ctx, id, 1);
    out := [];
    found := flaps != [];
    if found {
      out := Extrapolate(flaps[0], values, n, id);
    }
  }

  method AverageParallelogramPrediction(ctx: Context, id: nat, values: array<Row>, n: nat) returns (found: bool, out: Row)
    requires Valid(ctx) && Rows(values[..], n) && 0 < id <= values.Length
    ensures found == (Flaps(ctx, id) != [])
    ensures found ==> out == Predicted(ctx, Average, id, values[..], n)
  {
    hide Flaps, Extrapolated, Total, Divided;
    var flaps := CollectFlaps(ctx, id, MAX_FLAPS);
    out := [];
    found := flaps != [];
    if found {
      var sum, count := SumSelected(flaps, AllTrue(|flaps|), values, n, id);
      AllOnes(|flaps|);
      out := DivideRow(sum, count);
    }
  }

  /** The method's prediction for an entry after the first. */
  method Predict(ctx: Context, kind: Kind, id: nat, values: array<Row>, n: nat) returns (out: Row)
    requires Valid(ctx) && !kind.Chosen? && Rows(values[..], n) && 0 < id <= values.Length
    ensures out == Predicted(ctx, kind, id, values[..], n)
  {
    hide Flaps, Extrapolated, Total, Divided;
    var found := false;
    out := [];
    match kind {
      case Difference =>
      case First => found, out := FirstParallelogramPrediction(ctx, id, values, n);
      case Average => found, out := AverageParallelogramPrediction(ctx, id, values, n);
    }
    if !found {
      out := values[id - 1];
      AllOnes(0);
    }
  }

  // ---- correction loops ------------------------------------------------------------------------------

  /** Corrections of the first entry, then of the others from last to second. */
  method ComputeCorrections(ctx: Context, kind: Kind, transform: Wrap, ghost b: Bounds, values: array<Row>, n: nat) returns (corrections: array<Row>)
    requires Valid(ctx) && !kind.Chosen? && transform.Is(b) && transform.numComponents == n && Rows(values[..], n)
    modifies transform.clampedScratch
    ensures fresh(corrections) && corrections[..] == Corrections(ctx, kind, b, values[..], n)
  {
    hide Predicted, CorrectRow, Valid;
    corrections := new Row[values.Length](_ => []);
    if values.Length == 0 {
      return;
    }
    corrections[0] := transform.ComputeCorrection(values[0], ZeroRow(n), b);
    FirstPredicted(ctx, kind, values[..], n);
    var id := values.Length - 1;
    while id > 0
      invariant 0 <= id < values.Length && transform.Is(b) && transform.numComponents == n
      invariant corrections[0] == Corrections(ctx, kind, b, values[..], n)[0]
      invariant forall k :: id < k < values.Length ==> corrections[k] == Corrections(ctx, kind, b, values[..], n)[k]
    {
      var predicted := Predict(ctx, kind, id, values, n);
      corrections[id] := transform.ComputeCorrection(values[id], predicted, b);
      id := id - 1;
    }
  }

  lemma FirstPredicted(ctx: Context, kind: Kind, values: seq<Row>, n: nat)
    requires Valid(ctx) && Rows(values, n)
    ensures Predicted(ctx, kind, 0, values, n) == ZeroRow(n)
  {
  }

  /** Restores entries in order into a buffer that may hold anything before. */
  method RestoreValues(ctx: Context, kind: Kind, transform: Wrap, ghost b: Bounds, corrections: seq<Row>, n: nat, values: array<Row>)
    requires Valid(ctx) && !kind.Chosen? && transform.Is(b) && transform.numComponents == n && Rows(corrections, n)
    requires values.Length == |corrections| && Rows(values[..], n)
    modifies transform.clampedScratch, values
    ensures values[..] == Rebuilt(ctx, kind, b, corrections, n)
  {
    hide Predicted, RestoreRow, Valid;
    assert corrections[..|corrections|] == corrections;
    for id := 0 to |corrections|
      invariant transform.Is(b) && transform.numComponents == n && Rows(values[..], n)
      invariant values[..id] == Rebuilt(ctx, kind, b, corrections[..id], n)
    {
      var predicted := ZeroRow(n);
      FirstPredicted(ctx, kind, values[..id], n);
      if id > 0 {
        predicted := Predict(ctx, kind, id, values, n);
        LooksBack(ctx, kind, id, values[..], values[..id], n);
      }
      StepRebuilt(ctx, kind, b, corrections, n, id);
      ghost var before := values[..id];
      var row := transform.ComputeOriginalValue(predicted, corrections[id], b);
      values[id] := row;
      assert values[..id + 1] == before + [row];
    }
  }

  lemma StepRebuilt(ctx: Context, kind: Kind, b: Bounds, corrections: seq<Row>, n: nat, id: nat)
    requires Valid(ctx) && !kind.Chosen? && Rows(corrections, n) && id < |corrections|
    ensures var before := Rebuilt(ctx, kind, b, corrections[..id], n);
            Rebuilt(ctx, kind, b, corrections[..id + 1], n) == before + [RestoreRow(b, Predicted(ctx, kind, id, before, n), corrections[id])]
  {
    assert corrections[..id + 1][..id] == corrections[..id];
  }
}
