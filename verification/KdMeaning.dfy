/** What the numbers in a kd-tree stream say about the points (internal/codec/kdtree/dynamic.go),
    read off the decoder on any streams. */
module KdMeaning {
  import opened Bits
  import opened KdStreams
  import opened KdTree
  import opened KdRoundTrip

  // ---- axes ------------------------------------------------------------------------------------------

  /** Among the least-split axes the first one is taken. */
  lemma {:induction false} MinAxisFirst(levels: Row, k: nat)
    requires 1 <= k <= |levels|
    ensures forall i :: 0 <= i < k ==> levels[MinAxis(levels, k)] <= levels[i]
    ensures forall i :: 0 <= i < MinAxis(levels, k) ==> levels[i] > levels[MinAxis(levels, k)]
  {
    if k > 1 {
      MinAxisFirst(levels, k - 1);
    }
  }

  /** Among the axes that can still be halved the first one with the largest side is taken. */
  lemma {:induction false} BestAxisFirst(c: Config, pts: seq<Row>, base: Row, levels: Row, k: nat)
    requires k <= c.dim == |base| == |levels| && c.dim >= 1 && pts != []
    requires forall i :: 0 <= i < |levels| ==> levels[i] <= c.bl
    requires forall k :: 0 <= k < |pts| ==> |pts[k]| == c.dim
    ensures var (best, max) := BestAxis(c, pts, base, levels, k);
            (forall i :: 0 <= i < k && levels[i] < c.bl ==> Deviation(c, pts, base, levels, i) <= max) &&
            (forall i :: 0 <= i < k && i < best && levels[i] < c.bl ==> Deviation(c, pts, base, levels, i) < max) &&
            (max > 0 ==> best < k && levels[best] < c.bl && Deviation(c, pts, base, levels, best) == max) &&
            (max == 0 ==> best == 0 && forall i :: 0 <= i < k ==> levels[i] == c.bl)
    decreases k
  {
    if k > 0 {
      BestAxisFirst(c, pts, base, levels, k - 1);
    }
  }

  /** An axis takes the bits of the largest axis number, and never less than four. */
  lemma AxisBitsLeast(dim: nat)
    requires dim >= 1
    ensures AxisBitCount(dim) >= 4 && dim <= Pow2(AxisBitCount(dim))
    ensures AxisBitCount(dim) > 4 ==> dim > Pow2(AxisBitCount(dim) - 1)
  {
    AxisFits(dim - 1, dim);
    if dim > 16 {
      MsbitBounds(dim - 1);
    }
  }

  /** Which axis a decoder takes: below level 6 the one after the last; then, with fewer than 64 points,
      the first least-split one, and otherwise the one that the stream names. */
  lemma AxisTaken(c: Config, n: nat, levels: Row, last: nat, src: Source)
    requires |levels| == c.dim >= 1 && last < c.dim && ValidSource(src)
    ensures !c.select ==> DecAxis(c, n, levels, last, src) == Some(((last + 1) % c.dim, src))
    ensures c.select && n <= 63 ==>
              var r := DecAxis(c, n, levels, last, src);
              r.Some? && r.value.1 == src && (forall i :: 0 <= i < c.dim ==> levels[r.value.0] <= levels[i]) &&
              forall i :: 0 <= i < r.value.0 ==> levels[i] > levels[r.value.0]
    ensures c.select && n > 63 ==>
              var axis := Read(src, AxisBitCount(c.dim));
              DecAxis(c, n, levels, last, src) == if axis.Some? && axis.value.0 < c.dim then axis else None
  {
    MinAxisFirst(levels, c.dim);
    if last + 1 == c.dim {
      assert (last + 1) % c.dim == 0;
    }
  }

  // ---- rows of a cell ---------------------------------------------------------------------------------

  ghost predicate CellRows(c: Config, rows: seq<Row>, n: nat, base: Row, levels: Row)
    requires NodeOk(c, base, levels)
  {
    |rows| == n && AllInCell(c, rows, base, levels)
  }

  /** The two halves of a cell are its parts on both sides of the middle. */
  lemma HalfCells(c: Config, base: Row, levels: Row, axis: nat, p: Row)
    requires NodeOk(c, base, levels) && axis < c.dim && levels[axis] < c.bl
    ensures NodeOk(c, base, Deeper(levels, axis)) && NodeOk(c, UpperBase(c, base, levels, axis), Deeper(levels, axis))
    ensures InCell(c, p, base, Deeper(levels, axis)) ==> InCell(c, p, base, levels) && p[axis] < Middle(c, base, levels, axis)
    ensures InCell(c, p, UpperBase(c, base, levels, axis), Deeper(levels, axis)) ==>
              InCell(c, p, base, levels) && p[axis] >= Middle(c, base, levels, axis)
  {
    ChildCells(c, base, levels, axis);
    assert Pow2(c.bl - levels[axis]) == 2 * Pow2(c.bl - levels[axis] - 1);
    hide Pow2, CellOk;
    var deeper, upper := Deeper(levels, axis), UpperBase(c, base, levels, axis);
    if InCell(c, p, base, deeper) {
      forall i | 0 <= i < c.dim
        ensures base[i] <= p[i] < base[i] + Pow2(c.bl - levels[i])
      {
        assert base[i] <= p[i] < base[i] + Pow2(c.bl - deeper[i]);
      }
    }
    if InCell(c, p, upper, deeper) {
      forall i | 0 <= i < c.dim
        ensures base[i] <= p[i] < base[i] + Pow2(c.bl - levels[i])
      {
        assert upper[i] <= p[i] < upper[i] + Pow2(c.bl - deeper[i]);
      }
    }
  }

  lemma BaseInCell(c: Config, base: Row, levels: Row)
    requires NodeOk(c, base, levels)
    ensures InCell(c, base, base, levels)
  {
    forall i | 0 <= i < c.dim
      ensures Pow2(c.bl - levels[i]) > 0
    {
      assert CellOk(base[i], levels[i], c.bl);
      Pow2Positive(c.bl - levels[i]);
    }
  }

  lemma {:induction false} Pow2Positive(k: nat)
    ensures Pow2(k) > 0
  {
    if k > 0 {
      Pow2Positive(k - 1);
    }
  }

  lemma {:induction false} PointStaysInCell(c: Config, base: Row, levels: Row, axis: nat, row: Row, j: nat, src: Source)
    requires NodeOk(c, base, levels) && Shape(c, base, levels) && InCell(c, row, base, levels)
    requires axis < c.dim && j <= c.dim && ValidSource(src)
    ensures var r := DecPoint(c, base, levels, axis, row, j, src); r.Some? ==> InCell(c, r.value.0, base, levels)
    decreases c.dim - j
  {
    hide Read, Or, AxisOrder, Pow2, Low;
    if j < c.dim {
      var a := AxisOrder(axis, c.dim, j);
      assert CellOk(base[a], levels[a], c.bl);
      if c.bl > levels[a] {
        var r := Read(src, c.bl - levels[a]);
        if r.Some? {
          ReadBound(src, c.bl - levels[a]);
          CellOr(base[a], levels[a], c.bl, r.value.0);
          PointStaysInCell(c, base, levels, axis, row[a := Or(base[a], r.value.0)], j + 1, r.value.1);
        }
      } else {
        Pow2Positive(c.bl - levels[a]);
        CellOr(base[a], levels[a], c.bl, 0);
        PointStaysInCell(c, base, levels, axis, row[a := Or(base[a], 0)], j + 1, src);
      }
    }
  }

  lemma {:induction false} LeafInCell(c: Config, n: nat, base: Row, levels: Row, axis: nat, src: Source)
    requires NodeOk(c, base, levels) && Shape(c, base, levels) && axis < c.dim && ValidSource(src)
    ensures var r := DecLeaf(c, n, base, levels, axis, src); r.Some? ==> CellRows(c, r.value.0, n, base, levels)
  {
    hide DecPoint, NodeOk, InCell;
    if n > 0 {
      BaseInCell(c, base, levels);
      PointStaysInCell(c, base, levels, axis, base, 0, src);
      var r := DecPoint(c, base, levels, axis, base, 0, src);
      if r.Some? {
        LeafInCell(c, n - 1, base, levels, axis, r.value.1);
      }
    }
  }

  /** On any streams the rows of a node lie in its cell. */
  lemma {:induction false} TreeInCell(c: Config, n: nat, base: Row, levels: Row, last: nat, src: Sources)
    requires NodeOk(c, base, levels) && Shape(c, base, levels) && ValidSources(src)
    ensures var r := DecTree(c, n, base, levels, last, src); r.Some? ==> CellRows(c, r.value.0, n, base, levels)
    decreases Room(c, levels), 1
  {
    hide DecLeaf, NodeOk, InCell, DecSplit, DecChild, UpperBase, Deeper, DecAxis, Middle;
    var a := DecAxis(c, n, levels, last, src.axis);
    if a.Some? {
      var (axis, rest) := a.value;
      var s0 := src.(axis := rest);
      if levels[axis] == c.bl {
        BaseInCell(c, base, levels);
      } else if n <= 2 {
        LeafInCell(c, n, base, levels, axis, s0.remaining);
      } else if DecSplit(n, s0).Some? {
        HalvesInCell(c, n, base, levels, axis, s0);
      }
    }
  }

  /** The rows of an inner node: first those above the middle, then those below it. */
  ghost predicate TwoHalves(c: Config, rows: seq<Row>, first: nat, second: nat, base: Row, levels: Row, axis: nat)
    requires NodeOk(c, base, levels) && axis < c.dim && levels[axis] < c.bl
  {
    CellRows(c, rows, first + second, base, levels) &&
    forall k :: 0 <= k < |rows| ==> (rows[k][axis] >= Middle(c, base, levels, axis) <==> k < second)
  }

  lemma {:induction false} HalvesInCell(c: Config, n: nat, base: Row, levels: Row, axis: nat, s0: Sources)
    requires NodeOk(c, base, levels) && Shape(c, base, levels) && ValidSources(s0) && axis < c.dim && levels[axis] < c.bl
    requires DecSplit(n, s0).Some?
    ensures var (first, second, s1) := DecSplit(n, s0).value;
            NodeOk(c, UpperBase(c, base, levels, axis), Deeper(levels, axis)) && NodeOk(c, base, Deeper(levels, axis)) &&
            Shape(c, UpperBase(c, base, levels, axis), Deeper(levels, axis)) && Shape(c, base, Deeper(levels, axis)) &&
            var upper := DecChild(c, second, UpperBase(c, base, levels, axis), Deeper(levels, axis), axis, s1);
            upper.Some? ==>
              var lower := DecChild(c, first, base, Deeper(levels, axis), axis, upper.value.1);
              lower.Some? ==> TwoHalves(c, upper.value.0 + lower.value.0, first, second, base, levels, axis)
    decreases Room(c, levels), 0
  {
    hide DecLeaf, NodeOk, InCell, DecSplit, DecChild, UpperBase, Deeper, DecAxis, Middle;
    var (first, second, s1) := DecSplit(n, s0).value;
    var ub, deeper := UpperBase(c, base, levels, axis), Deeper(levels, axis);
    RoomStep(c, levels, axis);
    ChildCells(c, base, levels, axis);
    NodeShape(c, base, deeper);
    NodeShape(c, ub, deeper);
    ChildInCell(c, second, ub, deeper, axis, s1);
    var upper := DecChild(c, second, ub, deeper, axis, s1);
    if upper.Some? {
      ChildInCell(c, first, base, deeper, axis, upper.value.1);
      var lower := DecChild(c, first, base, deeper, axis, upper.value.1);
      if lower.Some? {
        BothHalves(c, upper.value.0, lower.value.0, base, levels, axis);
      }
    }
  }

  lemma BothHalves(c: Config, upper: seq<Row>, lower: seq<Row>, base: Row, levels: Row, axis: nat)
    requires NodeOk(c, base, levels) && axis < c.dim && levels[axis] < c.bl
    requires NodeOk(c, UpperBase(c, base, levels, axis), Deeper(levels, axis)) && NodeOk(c, base, Deeper(levels, axis))
    requires AllInCell(c, upper, UpperBase(c, base, levels, axis), Deeper(levels, axis)) && AllInCell(c, lower, base, Deeper(levels, axis))
    ensures TwoHalves(c, upper + lower, |lower|, |upper|, base, levels, axis)
  {
    hide CellOk, UpperBase, Deeper, Middle;
    var rows := upper + lower;
    forall k | 0 <= k < |rows|
      ensures InCell(c, rows[k], base, levels) && (rows[k][axis] >= Middle(c, base, levels, axis) <==> k < |upper|)
    {
      HalfCells(c, base, levels, axis, rows[k]);
    }
  }

  lemma {:induction false} ChildInCell(c: Config, n: nat, base: Row, levels: Row, last: nat, src: Sources)
    requires NodeOk(c, base, levels) && Shape(c, base, levels) && ValidSources(src)
    ensures var r := DecChild(c, n, base, levels, last, src); r.Some? ==> CellRows(c, r.value.0, n, base, levels)
    decreases Room(c, levels), 2
  {
    if n > 0 {
      TreeInCell(c, n, base, levels, last, src);
    }
  }

  // ---- numbers and half bits ---------------------------------------------------------------------------

  /** A node of more than two points that is still to be halved: the number in the stream, which takes
      the bits of the node's count less one, is what the smaller half lacks to the middle; the half bit
      is there when the halves differ, and is set exactly when the half below the middle is the smaller
      one.  The rows above the middle come first. */
  lemma HalfBitMeaning(c: Config, n: nat, base: Row, levels: Row, last: nat, src: Sources)
    requires NodeOk(c, base, levels) && Shape(c, base, levels) && ValidSources(src) && n >= 3
    requires DecAxis(c, n, levels, last, src.axis).Some? && levels[DecAxis(c, n, levels, last, src.axis).value.0] < c.bl
    requires DecTree(c, n, base, levels, last, src).Some?
    ensures var axis, rows := DecAxis(c, n, levels, last, src.axis).value.0, DecTree(c, n, base, levels, last, src).value.0;
            var k := MostSignificantBit(n);
            Pow2(k) <= n < 2 * Pow2(k) && Read(src.numbers, k).Some? && Read(src.numbers, k).value.0 <= n / 2 &&
            var smaller := n / 2 - Read(src.numbers, k).value.0;
            exists above: nat, below: nat :: TwoHalves(c, rows, below, above, base, levels, axis) && above + below == n &&
              (above == smaller || below == smaller) && (above != below ==> (ReadHalf(src.half).0 <==> below == smaller))
  {
    hide DecLeaf, NodeOk, InCell, DecChild, UpperBase, Deeper, DecAxis, Middle, TwoHalves, CellRows;
    MsbitBounds(n);
    var (axis, rest) := DecAxis(c, n, levels, last, src.axis).value;
    var s0 := src.(axis := rest);
    HalvesInCell(c, n, base, levels, axis, s0);
    var (first, second, s1) := DecSplit(n, s0).value;
    var rows := DecTree(c, n, base, levels, last, src).value.0;
    assert TwoHalves(c, rows, first, second, base, levels, axis);
    var smaller := n / 2 - Read(src.numbers, MostSignificantBit(n)).value.0;
    if first != second {
      assert ReadHalf(src.half).0 <==> first == smaller;
    }
  }

  // ---- leaves -------------------------------------------------------------------------------------------

  function Joined(parts: seq<seq<Op>>): seq<Op>
  {
    if parts == [] then [] else parts[0] + Joined(parts[1..])
  }

  /** The write for one component, if its axis can still be halved. */
  function ComponentOps(c: Config, p: Row, levels: Row, a: nat): seq<Op>
    requires a < |p| == |levels| && levels[a] <= c.bl
  {
    if levels[a] == c.bl then [] else [Op(c.bl - levels[a], p[a])]
  }

  /** The i-th of them when the axes are taken in a cycle. */
  function Cycled(c: Config, p: Row, levels: Row, i: nat): seq<Op>
    requires |p| == |levels| == c.dim >= 1 && forall i :: 0 <= i < |levels| ==> levels[i] <= c.bl
  {
    ComponentOps(c, p, levels, i % c.dim)
  }

  /** The components of a leaf's point are written from the chosen axis on, around to the one before it. */
  lemma {:induction false} LeafOrder(c: Config, p: Row, levels: Row, axis: nat, j: nat)
    requires |p| == |levels| == c.dim && axis < c.dim && j <= c.dim && forall i :: 0 <= i < |levels| ==> levels[i] <= c.bl
    ensures PointOps(c, p, levels, axis, j) == Joined(seq(c.dim - j, i requires 0 <= i => Cycled(c, p, levels, axis + j + i)))
    decreases c.dim - j
  {
    hide Cycled;
    var parts := seq(c.dim - j, i requires 0 <= i => Cycled(c, p, levels, axis + j + i));
    if j < c.dim {
      LeafOrder(c, p, levels, axis, j + 1);
      assert parts[1..] == seq(c.dim - (j + 1), i requires 0 <= i => Cycled(c, p, levels, axis + (j + 1) + i));
      AxisWraps(axis + j, c.dim);
      CycledAt(c, p, levels, axis, j);
    }
  }

  lemma CycledAt(c: Config, p: Row, levels: Row, axis: nat, j: nat)
    requires |p| == |levels| == c.dim && axis < c.dim && j < c.dim && forall i :: 0 <= i < |levels| ==> levels[i] <= c.bl
    ensures Cycled(c, p, levels, axis + j) == ComponentOps(c, p, levels, AxisOrder(axis, c.dim, j))
  {
    AxisWraps(axis + j, c.dim);
  }

  lemma AxisWraps(k: nat, dim: nat)
    requires dim > 0 && k < 2 * dim
    ensures k % dim == if k < dim then k else k - dim
  {
  }
}
