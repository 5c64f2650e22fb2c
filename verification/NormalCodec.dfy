/** Normals coded as differences from the entry before (integer_codec.go) or from the geometry
    around them (mesh_prediction_geometric_normal.go), both by the transform for normals. */
module NormalCodec {
  import opened Octahedra
  import NormalTransform
  import Wrapping

  // ---- differences ----------------------------------------------------------------------------------

  /** The first entry is predicted by zero, every other one by the entry before. */
  function Before(values: seq<Point>, i: nat): Point
    requires i <= |values|
  {
    if i == 0 then Point(0, 0) else values[i - 1]
  }

  function Differences(c: int, values: seq<Point>): (r: seq<Point>)
    ensures |r| == |values|
  {
    seq(|values|, i requires 0 <= i < |values| => Correction(c, values[i], Before(values, i)))
  }

  function Undone(c: int, corrections: seq<Point>): (r: seq<Point>)
    ensures |r| == |corrections|
  {
    if corrections == [] then []
    else
      var before := Undone(c, corrections[..|corrections| - 1]);
      before + [Original(c, Before(before, |before|), corrections[|corrections| - 1])]
  }

  predicate AllOnSquare(c: int, values: seq<Point>)
  {
    forall i :: 0 <= i < |values| ==> OnSquare(c, values[i])
  }

  /** An entry survives: it is canonical, or the entry before lies in the diamond. */
  predicate Survives(c: int, values: seq<Point>, i: nat)
    requires i < |values|
  {
    Canonical(c, values[i]) == values[i] || InDiamond(c, Centered(c, Before(values, i)))
  }

  lemma {:induction false} UndonePrefix(c: int, values: seq<Point>, k: nat)
    requires Center(c) && AllOnSquare(c, values) && k <= |values|
    ensures Undone(c, Differences(c, values)[..k]) == values[..k] <==> forall i :: 0 <= i < k ==> Survives(c, values, i)
    decreases k
  {
    hide Correction, Original, Survives;
    if k > 0 {
      var last := k - 1;
      UndonePrefix(c, values, last);
      var corrections := Differences(c, values);
      assert corrections[..k][..last] == corrections[..last] && corrections[..k][last] == corrections[last];
      NextUndone(c, values, last, Undone(c, corrections[..last]));
    }
  }

  lemma NextUndone(c: int, values: seq<Point>, last: nat, before: seq<Point>)
    requires Center(c) && AllOnSquare(c, values) && |before| == last < |values|
    ensures before + [Original(c, Before(before, last), Differences(c, values)[last])] == values[..last + 1] <==>
            before == values[..last] && Survives(c, values, last)
  {
    hide Correction, Original, Canonical, InDiamond;
    var point := Original(c, Before(before, last), Differences(c, values)[last]);
    LastEqual(before, point, values, last);
    if before == values[..last] {
      assert Before(before, last) == Before(values, last);
      NormalRoundTrip(c, values[last], Before(values, last));
    }
  }

  lemma LastEqual(before: seq<Point>, point: Point, values: seq<Point>, last: nat)
    requires |before| == last < |values|
    ensures before + [point] == values[..last + 1] <==> before == values[..last] && point == values[last]
  {
    var r := before + [point];
    assert r[..last] == before && r[last] == point;
    assert values[..last + 1][..last] == values[..last];
    assert values[..last + 1] == values[..last] + [values[last]];
  }

  /** A sequence of normals comes back exactly when each one is canonical or follows one inside
      the diamond; canonical normals always do. */
  lemma DifferencesUndone(c: int, values: seq<Point>)
    requires Center(c) && AllOnSquare(c, values)
    ensures Undone(c, Differences(c, values)) == values <==> forall i :: 0 <= i < |values| ==> Survives(c, values, i)
  {
    var corrections := Differences(c, values);
    UndonePrefix(c, values, |values|);
    assert corrections[..|values|] == corrections && values[..|values|] == values;
  }

  /** Canonical normals come back. */
  lemma CanonicalUndone(c: int, values: seq<Point>)
    requires Center(c) && AllCanonical(c, values)
    ensures Undone(c, Differences(c, values)) == values
  {
    hide Canonical;
    DifferencesUndone(c, values);
  }

  predicate AllCanonical(c: int, values: seq<Point>)
  {
    forall i :: 0 <= i < |values| ==> OnSquare(c, values[i]) && Canonical(c, values[i]) == values[i]
  }

  /** Corrections below the modulus, as the encoder makes them. */
  predicate InRange(c: int, correction: Point)
  {
    0 <= correction.s < 2 * c + 1 && 0 <= correction.t < 2 * c + 1
  }

  lemma OriginalOnSquare(c: int, predicted: Point, correction: Point)
    requires Center(c) && OnSquare(c, predicted) && InRange(c, correction)
    ensures OnSquare(c, Original(c, predicted, correction))
  {
    NormalTransform.OriginalExact(c, predicted, correction);
  }

  predicate AllInRange(c: int, corrections: seq<Point>)
  {
    forall i :: 0 <= i < |corrections| ==> InRange(c, corrections[i])
  }

  /** Corrections in range never lead off the square. */
  lemma {:induction false} UndoneOnSquare(c: int, corrections: seq<Point>)
    requires Center(c) && AllInRange(c, corrections)
    ensures AllOnSquare(c, Undone(c, corrections))
    decreases |corrections|
  {
    hide Original, InRange;
    if corrections != [] {
      var last := |corrections| - 1;
      UndoneOnSquare(c, corrections[..last]);
      var before := Undone(c, corrections[..last]);
      ZeroOnSquare(c);
      OriginalOnSquare(c, Before(before, last), corrections[last]);
    }
  }

  lemma ZeroOnSquare(c: int)
    requires Center(c)
    ensures OnSquare(c, Point(0, 0))
  {
  }

  lemma DifferencesInRange(c: int, values: seq<Point>)
    requires Center(c) && AllOnSquare(c, values)
    ensures AllInRange(c, Differences(c, values))
  {
    hide Correction;
    forall i | 0 <= i < |values|
      ensures InRange(c, Differences(c, values)[i])
    {
      ZeroOnSquare(c);
      CorrectionRange(c, values[i], Before(values, i));
    }
  }

  // ---- the loops ------------------------------------------------------------------------------------

  type Row = seq<int>

  predicate Pairs(rows: seq<Row>)
  {
    forall i :: 0 <= i < |rows| ==> |rows[i]| == 2
  }

  function Points(rows: seq<Row>): (r: seq<Point>)
    requires Pairs(rows)
    ensures |r| == |rows|
  {
    seq(|rows|, i requires 0 <= i < |rows| => Point(rows[i][0], rows[i][1]))
  }

  /** Differences of any 32-bit points. */
  function Differences32(c: int, values: seq<Point>): (r: seq<Point>)
    ensures |r| == |values|
  {
    seq(|values|, i requires 0 <= i < |values| => NormalTransform.Correction32(c, values[i], Before(values, i)))
  }

  function Undone32(c: int, corrections: seq<Point>): (r: seq<Point>)
    ensures |r| == |corrections|
  {
    if corrections == [] then []
    else
      var before := Undone32(c, corrections[..|corrections| - 1]);
      before + [NormalTransform.Original32(c, Before(before, |before|), corrections[|corrections| - 1])]
  }

  /** Points on the square have exact differences. */
  lemma DifferencesExact(c: int, values: seq<Point>)
    requires Center(c) && AllOnSquare(c, values)
    ensures Differences32(c, values) == Differences(c, values)
  {
    hide Correction, NormalTransform.Correction32;
    forall i | 0 <= i < |values|
      ensures Differences32(c, values)[i] == Differences(c, values)[i]
    {
      ZeroOnSquare(c);
      NormalTransform.CorrectionExact(c, values[i], Before(values, i));
    }
  }

  /** Corrections below the modulus are undone exactly. */
  lemma {:induction false} UndoneExact(c: int, corrections: seq<Point>)
    requires Center(c) && AllInRange(c, corrections)
    ensures Undone32(c, corrections) == Undone(c, corrections)
    decreases |corrections|
  {
    hide Original, NormalTransform.Original32, OnSquare;
    if corrections != [] {
      var last := |corrections| - 1;
      UndoneExact(c, corrections[..last]);
      var before := Undone(c, corrections[..last]);
      UndoneOnSquare(c, corrections[..last]);
      ZeroOnSquare(c);
      assert InRange(c, corrections[last]);
      NormalTransform.OriginalExact(c, Before(before, last), corrections[last]);
    }
  }

  predicate Words32(rows: seq<Row>)
    requires Pairs(rows)
  {
    forall i :: 0 <= i < |rows| ==> Wrapping.Int32(rows[i][0]) && Wrapping.Int32(rows[i][1])
  }

  method ComputeNormalDifferences(transform: NormalTransform.NormalOctahedron, values: seq<Row>) returns (corrections: seq<Row>)
    requires transform.Valid() && Pairs(values) && Words32(values)
    ensures Pairs(corrections) && Points(corrections) == Differences32(transform.centerValue, Points(values))
  {
    hide NormalTransform.Correction32;
    ghost var c := transform.centerValue;
    corrections := [];
    var out := new int[2];
    for i := 0 to |values|
      invariant |corrections| == i && Pairs(corrections)
      invariant forall k :: 0 <= k < i ==> Point(corrections[k][0], corrections[k][1]) == Differences32(c, Points(values))[k]
    {
      var predicted := if i == 0 then [0, 0] else values[i - 1];
      transform.ComputeCorrection(values[i], predicted, out);
      corrections := corrections + [out[..]];
    }
  }

  /** Restores normals from any corrections. */
  method RestoreNormalDifferences(transform: NormalTransform.NormalOctahedron, corrections: seq<Row>) returns (values: seq<Row>)
    requires transform.Valid() && Pairs(corrections) && Words32(corrections)
    ensures Pairs(values) && Points(values) == Undone32(transform.centerValue, Points(corrections))
  {
    hide NormalTransform.Original32, Pairs;
    ghost var c, all := transform.centerValue, Points(corrections);
    values := [];
    var out := new int[2];
    assert all[..|corrections|] == all && all[..0] == [];
    NoPairs(c);
    var predicted := [0, 0];
    for i := 0 to |corrections|
      invariant |values| == i && Pairs(values) && |predicted| == 2 && Wrapping.Int32(predicted[0]) && Wrapping.Int32(predicted[1])
      invariant Points(values) == Undone32(c, all[..i]) && Point(predicted[0], predicted[1]) == Before(Points(values), i)
    {
      PairsAt(corrections, i);
      assert all[..i + 1][..i] == all[..i];
      transform.ComputeOriginalValue(predicted, corrections[i], out);
      PairsGrow(values, out[..]);
      predicted := out[..];
      values := values + [predicted];
    }
  }

  lemma NoPairs(c: int)
    ensures Pairs([]) && Points([]) == [] && Undone32(c, []) == []
  {
  }

  lemma PairsAt(rows: seq<Row>, i: nat)
    requires Pairs(rows) && i < |rows|
    ensures |rows[i]| == 2 && Points(rows)[i] == Point(rows[i][0], rows[i][1])
  {
  }

  lemma PairsGrow(rows: seq<Row>, row: Row)
    requires Pairs(rows) && |row| == 2
    ensures Pairs(rows + [row]) && Points(rows + [row]) == Points(rows) + [Point(row[0], row[1])]
  {
  }

  // ---- prediction from geometry ------------------------------------------------------------------------

  function Negated(v: Vector): Vector
  {
    Vector(-v.x, -v.y, -v.z)
  }

  /** Coordinates of a vector or, if flipped, of its opposite. */
  function Towards(c: int, v: Vector, flip: bool): Point
  {
    Coordinates(c, if flip then Negated(Scaled(c, v)) else Scaled(c, v))
  }

  /** The correction as it is stored, folded to small magnitudes for the choice and unfolded again. */
  function GeometricCorrection(c: int, original: Point, v: Vector, flip: bool): Point
  {
    var k := Correction(c, original, Towards(c, v, flip));
    Point(MakePositive(c, ModMax(c, k.s)), MakePositive(c, ModMax(c, k.t)))
  }

  /** Whatever vector the geometry gives and whichever flip is chosen, the prediction is canonical
      and a canonical normal comes back. */
  lemma GeometricRoundTrip(c: int, original: Point, v: Vector, flip: bool)
    requires Center(c) && OnSquare(c, original) && Canonical(c, original) == original
    ensures OnSquare(c, Towards(c, v, flip)) && Canonical(c, Towards(c, v, flip)) == Towards(c, v, flip)
    ensures Original(c, Towards(c, v, flip), GeometricCorrection(c, original, v, flip)) == original
  {
    hide Correction, Original, Coordinates, Canonical, Scaled;
    ScaledOnOctahedron(c, v);
    var u := if flip then Negated(Scaled(c, v)) else Scaled(c, v);
    CoordinatesUnfold(c, u);
    CanonicalRoundTrip(c, original, Towards(c, v, flip));
    CorrectionRange(c, original, Towards(c, v, flip));
  }

  lemma GeometricInRange(c: int, original: Point, v: Vector, flip: bool)
    requires Center(c) && OnSquare(c, original)
    ensures InRange(c, GeometricCorrection(c, original, v, flip))
  {
    hide Correction, Original, Coordinates, Canonical, Scaled;
    ScaledOnOctahedron(c, v);
    CoordinatesUnfold(c, if flip then Negated(Scaled(c, v)) else Scaled(c, v));
    CorrectionRange(c, original, Towards(c, v, flip));
  }

  /** Opposite normals: a flip predicts the opposite vector. */
  lemma FlipIsOpposite(c: int, v: Vector)
    requires Center(c)
    ensures Unfold(c, Towards(c, v, false)) == Scaled(c, v) && Unfold(c, Towards(c, v, true)) == Negated(Scaled(c, v))
  {
    hide Coordinates, Canonical, Scaled, Unfold;
    ScaledOnOctahedron(c, v);
    CoordinatesUnfold(c, Scaled(c, v));
    CoordinatesUnfold(c, Negated(Scaled(c, v)));
  }
}
